# Advent of Code solvers, modelled in Dafny

This project models the core of a C# collection of Advent of Code puzzle
solvers and proves what they compute. The core has these parts:

- **The directional shortest-path search of 2024 day 16.** A maze is walked
  by states `(cell, facing direction)`. A straight step costs 1 and a step
  that changes direction costs 1001. A Dijkstra relaxation keeps every
  predecessor that ties for the least cost. Part two then walks backwards
  from the cheapest end states and counts the cells it meets.
- **The grid type with its cell and vector arithmetic** (`Common/Grid2D.cs`).
- **Union–find with union by size and path compression** (`Common/UnionFind.cs`).
- **The box-pushing robot of 2024 day 15.** Narrow `O` boxes and wide `[]`
  boxes are moved on a grid that is changed in place.
- **The smaller solvers and helpers:**
  - the password successor and its rules (2015 day 11);
  - report safety with one-level tolerance (2024 day 2);
  - repeated-block product ids summed over ranges (2025 day 2);
  - look-and-say (2015 day 10);
  - the memoized stone-splitting count (2024 day 11);
  - antinodes of antenna pairs (2024 day 8);
  - the shortest and longest route through every place (2015 day 9);
  - subsets, pairs and permutations (`Utils.cs`, `AdventOfCode/Utils.cs`);
  - list and matrix parsing (`Utils.Parser.cs`).

There is one module per source file. Some source files are split further:

- **Shared modules.** `Wrappers` (an `Option` type), `Numbers` (decimal digits), `Strings` (`Split`/`Join`) and `Parser` (`Utils.Parser.cs`).
- **`Grid2D`.** The class `CharGrid` over an `array2<char>` is the grid. `Board` (a `seq<seq<char>>`) is its value view.
- **`Utils`.** It models `Utils.cs` and `AdventOfCode/Utils.cs`; their `Permute` and `Swap` are the same code.
- **`UnionFindForest`.** The class `UnionFind` over `parent` and `size` arrays.
- **2024 day 16** is split into:
  - `Day16Paths` (states, moves and path costs);
  - `Day16Search` (table setup and relaxation);
  - `Day16SearchInvariant` and `Day16ShortestPaths` (the relaxation loop and its invariant);
  - `Day16Optimality` (the recorded costs are least costs);
  - `Day16Walk` (the backward walk);
  - `Day16OptimalCells` (the walk finds exactly the cells on cheapest paths);
  - `Day16Corner` (the maze on which the code as written does not terminate);
  - `Day16` (the two answers);
  - `QueueWeight` (the measure that makes the relaxation loop terminate).
- **One module per puzzle** for the rest: `Day15`, `Day2Of2024`, `Day2Of2025`, `Day10Of2015`, `Day11Of2015`, `Day11Of2024`, `Day8Of2024` and `Day9Of2015`.

Code that changes state is modelled as methods with loops and arrays, classes and maps, each proved against a function on values:

- the relaxation loop;
- the backward walk;
- the grid class;
- union–find;
- the robot moves;
- the password array;
- the memo cache of day 11;
- `ToMap`;
- route distances;
- the permutation generator.

Both C# `Utils.Permute` methods are modelled by `Utils.Permute` and `Utils.Permutations`.

Where the code and the design description disagree, the model follows the code:

- **The start state's cost.**
  - Design description: the start state starts at cost 0.
  - Code: the table setup at `2024/Day16.cs:72-76` overwrites that 0 with `int.MaxValue`, and only the queue seed carries 0.
- **Ties.**
  - Design description: a state whose cost ties is not pushed again.
  - Code: a tie re-enqueues it, because the test is `>=`.
- **The backward walk.**
  - Design description: the walk keeps a visited set.
  - Code: it has none.
  - Together with the overwritten start cost, this makes part two loop forever on some mazes (see Findings).
- **An unreachable end.**
  - Design description: an error.
  - Code: part one returns `int.MaxValue` instead.

## Model

| member | source | states |
|---|---|---|
| Grid2D.Cell2D.Add | Common/Grid2D.cs:5 | The displaced cell differs from the original by exactly the vector, row and column. |
| Grid2D.LabeledCell.Add | Common/Grid2D.cs:10 | The labelled cell moves by exactly the vector and keeps its value. |
| Grid2D.DirectionsAreTheUnitMoves | Common/Grid2D.cs:15-20 | `Directions` holds exactly the four unit moves. |
| Grid2D.Calculate | Common/Grid2D.cs:22-23 | Adding the calculated vector to `from` gives `to`. |
| Grid2D.CalculateInvertsAdd | Common/Grid2D.cs:22-23 | Calculating the vector from `from` to `from + v` gives `v` back. |
| Grid2D.Update | Common/Grid2D.cs:61-71 | Writing one cell keeps the board's shape, sets that cell and leaves every other cell as it was. |
| Grid2D.Filled | Common/Grid2D.cs:49-59 | The board has the requested dimensions and every cell holds the default value. |
| Grid2D.CellsWhere | Common/Grid2D.cs:99-104 | Filtering the enumeration lists exactly the cells whose label passes, in row-major order. |
| Grid2D.EntriesRowMajor | Common/Grid2D.cs:99-104 | Enumeration has `Rows * Columns` entries. Entry `y * Columns + x` is `(y, x, value)`, so every cell appears exactly once, in row-major order. |
| Grid2D.RenderRow | Common/Grid2D.cs:85-91 | A rendered row has one character per cell, with `'\0'` shown as the default character. |
| Grid2D.PlotTextLines | Common/Grid2D.cs:79-97 | Splitting `Plot`'s text at newlines gives `Rows` lines of `Columns` characters. Each character is the cell, or the default character for a `'\0'` cell. There is no trailing newline. |
| Grid2D.LaterEntryWins | Common/Grid2D.cs:42-43 | A cell listed more than once takes the value of its last entry. |
| Grid2D.UnlistedStaysDefault | Common/Grid2D.cs:41-43 | A cell that is not listed keeps the default `'\0'`. |
| Grid2D.LinesBoard | Common/Grid2D.cs:32-37 | The board built from the lines has one row per line, as wide as the first line, with cell (y, x) equal to character x of line y. |
| Grid2D.TextBoard | Common/Grid2D.cs:32-37 | The string constructor's board: `None` exactly when a line is shorter than the first. Otherwise one row per line, with cell (y, x) equal to character x of line y. |
| Grid2D.CharGrid.Snapshot | Common/Grid2D.cs:28-30 | The value view has `Rows` rows of `Columns` cells, each equal to the array cell. |
| Grid2D.CharGrid.FromString | Common/Grid2D.cs:32-37 | The string constructor builds a fresh grid with one row per line, as wide as the first line. Cell (y, x) is character x of line y. |
| Grid2D.CharGrid.FromCells | Common/Grid2D.cs:39-47 | The cell-list constructor builds a fresh grid of the given size. Every cell holds the value of its last listed entry, or `'\0'`. |
| Grid2D.CharGrid.Filled | Common/Grid2D.cs:49-59 | The default-value constructor builds a fresh grid of the given size with every cell equal to the default. |
| Grid2D.CharGrid.Get | Common/Grid2D.cs:61-65 | The `[y, x]` getter reads that cell of the grid. |
| Grid2D.CharGrid.GetAt | Common/Grid2D.cs:67-71 | The `[cell]` getter reads that cell of the grid. |
| Grid2D.CharGrid.Set | Common/Grid2D.cs:61-65 | The `[y, x]` setter changes that one cell and no other. |
| Grid2D.CharGrid.SetAt | Common/Grid2D.cs:67-71 | The `[cell]` setter changes that one cell and no other. |
| Grid2D.CharGrid.IsInRange | Common/Grid2D.cs:73-77 | A cell is in range exactly when `0 <= Y < Rows` and `0 <= X < Columns`. |
| Grid2D.CharGrid.Plot | Common/Grid2D.cs:79-97 | `Plot` returns the rendered text of the current contents (see `PlotTextLines`). |
| Grid2D.CharGrid.PlotRow | Common/Grid2D.cs:85-91 | The inner loop of `Plot` renders row `y`. |
| Grid2D.CharGrid.Enumerate | Common/Grid2D.cs:99-104 | `GetEnumerator` yields the row-major entries of the current contents (see `EntriesRowMajor`). |
| Grid2D.CharGrid.EnumerateRow | Common/Grid2D.cs:102-103 | The inner loop yields the entries of row `y` from left to right. |
| Strings.Split | Utils.Parser.cs:13 | Splitting gives at least one piece, and no piece contains the separator. |
| Strings.JoinSplit | Utils.Parser.cs:13 | Joining the pieces of a split with the separator gives the text back. |
| Strings.SplitJoin | Utils.Parser.cs:13 | Splitting pieces joined by a separator they do not contain gives the pieces back. |
| Strings.NonEmpty | Utils.Parser.cs:7 | `RemoveEmptyEntries` keeps exactly the non-empty pieces. |
| Numbers.DecimalString | 2025/Day2.cs:21 | `ToString` of a number gives at least one digit and no leading zero. |
| Numbers.DecimalRoundTrip | 2025/Day2.cs:21 | Reading back the digits of a number gives the number. |
| Numbers.DigitCountBounds | 2024/Day11.cs:23 | The digit count `k` of `n` satisfies `10^(k-1) <= n < 10^k`. |
| Parser.ParseInteger | Utils.Parser.cs:27-28 | `Convert.ChangeType` from a string reads it the way `Int32.Parse`/`Int64.Parse` with `NumberStyles.Integer` do, as does `long.Parse` in 2025 day 2: white space (`'\t'` to `'\r'`, `' '`) before and after, an optional sign, digits, then trailing `'\0'`s. A success needs a digit in the text, and a negative result needs a `'-'` in it. |
| Parser.PaddingIgnored | Utils.Parser.cs:27-28 | White space before and after a number's text does not change what it converts to, so `"17\n"` and `" 17"` read as 17. |
| Parser.CarriageReturnIgnored | Utils.Parser.cs:27-28 | The last number of a CRLF line, `"1\r"`, reads as 1. |
| Parser.ParseIntegerRoundTrip | Utils.Parser.cs:27-28 | Converting the text of an integer gives the integer back. |
| Parser.ParseBounded | Utils.Parser.cs:27-28 | Conversion to `int` or `long` succeeds exactly when `ParseInteger` reads the text as an integer within the type's range, and then yields that integer. |
| Parser.ConvertAll | Utils.Parser.cs:8-9 | The list converts exactly when every piece converts. It then has one number per piece, in order. |
| Parser.ParseListRoundTrip | Utils.Parser.cs:5-9 | Rendering in-range numbers with a separator that is neither a digit nor a minus sign, then parsing, gives the list back. Empty pieces are dropped. |
| Parser.SplitIntegers | Utils.Parser.cs:7 | Splitting joined number texts and dropping empty pieces gives the texts back. |
| Parser.ConvertIntegers | Utils.Parser.cs:8 | Converting the texts of in-range numbers gives the numbers. |
| Parser.ParseMatrix | Utils.Parser.cs:11-25 | The matrix is `lines × |first line|`, with cell (y, x) equal to `rows[y][x]`. Longer rows are truncated. It fails exactly when some row is shorter than the first. |
| Parser.SingleLine | Utils.Parser.cs:13 | A line without a newline gives a one-row matrix. |
| Utils.SwappedExchanges | AdventOfCode/Utils.cs:30-35 | A swap exchanges the two positions and keeps every other one. |
| Utils.SwappedTwice | AdventOfCode/Utils.cs:22-27 | Swapping the same two positions twice restores the list. |
| Utils.Swap | Utils.cs:64-69 | The list after `Swap` is the old list with the two positions exchanged. |
| Utils.Permute | Utils.cs:48-62 | `Permute` appends the lists of the recursion to `acc`. Its paired swaps leave `items` as it was. |
| Utils.Permutations | Utils.cs:5-12 | `Permutations` returns the lists of `Permute(items, 0, n - 1)` and leaves `items` unchanged. Those lists are `n!` rearrangements and include every rearrangement (`PermutationsOf`, `PermutationsComplete`). |
| Utils.PermsCount | AdventOfCode/Utils.cs:14-28 | The recursion from `left` to `right` gives `(right - left + 1)!` lists, and none when `left == right + 1`. |
| Utils.PermsRearrange | AdventOfCode/Utils.cs:14-28 | Every list produced is a rearrangement of `items` (the same multiset) and keeps the positions before `left`. |
| Utils.PermutationsOf | AdventOfCode/Utils.cs:5-12 | For `n >= 1` there are `n!` lists, and none for the empty list. Each list is a rearrangement of the input. |
| Utils.PermsComplete | AdventOfCode/Utils.cs:14-28 | Every rearrangement that keeps the positions before `left` is among the lists the recursion from `left` produces. |
| Utils.PermutationsComplete | AdventOfCode/Utils.cs:5-12 | For `n >= 1`, every rearrangement of the input is among the lists. |
| Utils.Subsets | Utils.cs:14-35 | `Subsets` gives `2^n` lists. List `i` holds, in order, the items whose bit is set in `i`. |
| Utils.ChosenMembership | Utils.cs:23-28 | Over distinct items, subset `i` contains `items[t]` exactly when bit `t` of `i` is set. |
| Utils.SubsetsDistinct | UtilsTests.cs:45-59 | Over distinct items the `2^n` subsets are pairwise different. |
| Utils.Pairs | Utils.cs:37-46 | The nested loops give the pairs of all rows `i` below `n`. |
| Utils.PairsCount | Utils.cs:37-46 | Row `i` starts at `RowStart(n, i)`, so there are `n(n-1)/2` pairs in all. |
| Utils.PairAt | Utils.cs:43 | The pair `(items[i], items[j])` for `i < j` is at position `RowStart(n, i) + j - i - 1`. |
| Utils.PairPositionsIncrease | Utils.cs:39-45 | Positions grow with `(i, j)` in lexicographic order, so pairs come out in index order. |
| Utils.PairsAreIndexPairs | Utils.cs:39-45 | Every pair yielded is `(items[i], items[j])` for some `i < j`. |
| UnionFindForest.RootIn | Common/UnionFind.cs:27-29 | Following parent pointers from `i` ends at an element that is its own parent. A root is its own root. |
| UnionFindForest.RedirectRoot | Common/UnionFind.cs:34-36 | Pointing an element straight at its root changes no element's root. |
| UnionFindForest.LinkRoot | Common/UnionFind.cs:51 | After one root goes under another, the absorbed component's members have the surviving root, and no other root changes. |
| UnionFindForest.RelinkedKeep | Common/UnionFind.cs:49-61 | The surviving component is the union of the two components, which were disjoint. |
| UnionFindForest.LinkSized | Common/UnionFind.cs:52-53 | After linking, the surviving root's size is the sum and the absorbed root's is 0. Every size still counts its component. |
| UnionFindForest.LinkRoots | Common/UnionFind.cs:63 | Linking removes exactly the absorbed root from the roots, so there is one root fewer. |
| UnionFindForest.LinkInvariant | Common/UnionFind.cs:49-63 | Linking as `Union` does keeps the invariant: a ranked forest, sizes counting components, one component per root. |
| UnionFindForest.CompressStep | Common/UnionFind.cs:32-37 | One step of the second loop of `Find` keeps the forest ranked and every root the same. |
| UnionFindForest.CompressEnd | Common/UnionFind.cs:31-39 | At the end of `Find`, the whole old path from `x` points at the root. The roots and the sizes are unchanged. |
| UnionFindForest.AllRootsSize | Common/UnionFind.cs:22 | When every element is its own root there are as many roots as elements. |
| UnionFindForest.UnionFind.constructor | Common/UnionFind.cs:11-23 | Every element starts as its own root with size 1, and there are `n` components. |
| UnionFindForest.UnionFind.Root | Common/UnionFind.cs:27-29 | The root of `i` is an element that is its own parent. |
| UnionFindForest.UnionFind.Find | Common/UnionFind.cs:25-40 | `Find` returns the old root of `x`; it is its own parent. No element's root changes, so a second `Find` returns the same root. Every element on the old path now points straight at the root. |
| UnionFindForest.UnionFind.Union | Common/UnionFind.cs:42-64 | One component: the count, the sizes and every root stay as they were. Otherwise the smaller root goes under the other (on a tie, `y`'s under `x`'s). The survivor's size becomes the sum and the absorbed size 0. Components drop by one, and exactly the absorbed component's members change root. |
| UnionFindForest.UnionFind.Link | Common/UnionFind.cs:49-61 | One branch of `Union`: the absorbed root points at the survivor, which takes its size. There is one component fewer. |
| UnionFindForest.UnionFind.Connected | Common/UnionFind.cs:66-67 | True exactly when the two elements have the same root, so the relation is symmetric. No component changes. |
| UnionFindForest.UnionFind.ComponentSize | Common/UnionFind.cs:69-70 | The result is the number of members of `x`'s component. It is the same for every member. |
| UnionFindForest.UnionFind.AllComponentSizes | Common/UnionFind.cs:72-73 | The list holds the component size at every root and 0 elsewhere. |
| UnionFindForest.UnionFind.Components | Common/UnionFind.cs:75-76 | The counter equals the number of roots. |
| UnionFindForest.UnionChain | Common/UnionFindTests.cs:102-110 | In a fresh structure of `n` elements, `k` chained unions give one component of size `k + 1` and `n - k` components. |
| Day15.Offset | 2024/Day15.cs:127-134 | `^ > v <` map to the four unit moves, and no other character maps to one. |
| Day15.TryGetNewPosition | 2024/Day15.cs:125-141 | The neighbour in the move's direction, flagged in range exactly when it lies in the grid. The result is `None` (the source throws) for a character that is not a move. |
| Day15.SwapExchanges | 2024/Day15.cs:101-106 | A swap exchanges exactly the two labels and leaves every other cell alone. |
| Day15.Swap | 2024/Day15.cs:101-106 | The grid after `Swap` is the old board with the two cells exchanged. |
| Day15.SwapKeepsCounts | 2024/Day15.cs:101-106 | A swap keeps the number of cells carrying each label. |
| Day15.Push | 2024/Day15.cs:108-123 | A narrow move keeps the board's shape. The mover stays or moves one step ahead, always within the grid. |
| Day15.TryMove | 2024/Day15.cs:108-123 | `TryMove` leaves the board and returns the position that `Push` gives on the old board. |
| Day15.PushShifts | 2024/Day15.cs:113-120 | A line ahead of `k - 1` boxes and then a free cell moves the mover one step and shifts the boxes. |
| Day15.PushStays | 2024/Day15.cs:122 | A mover that does not move leaves the board exactly as it was, so a wall always blocks. |
| Day15.PushMovesIff | 2024/Day15.cs:108-123 | The mover moves exactly when the line ahead is boxes and then a free cell. |
| Day15.PushKeepsCounts | 2024/Day15.cs:108-123 | A narrow move keeps the number of cells with each label. |
| Day15.AndAlso | 2024/Day15.cs:51-57 | C#'s `&&` on results that may throw is `true` exactly when both sides are. |
| Day15.Movable | 2024/Day15.cs:37-60 | `CanMove` gives a result only for a move character; any other label and move pair throws. |
| Day15.CanMove | 2024/Day15.cs:37-60 | The method reads the grid in place and returns what `Movable` gives on its contents. |
| Day15.MovableHorizontal | 2024/Day15.cs:48-54 | A horizontal push is possible exactly when the row ahead is whole boxes and then a free cell. The far halves are never examined. |
| Day15.WideMove | 2024/Day15.cs:62-99 | A wide move keeps the board's shape. It succeeds only when the mover and the cell ahead are in the grid. |
| Day15.PushBox | 2024/Day15.cs:69-95 | Moving the box ahead keeps the board's shape. |
| Day15.DoMove | 2024/Day15.cs:62-99 | `DoMove` succeeds exactly when `WideMove` does. It then returns the cell ahead and leaves the board `WideMove` gives. |
| Day15.MoveBox | 2024/Day15.cs:69-95 | The `switch` of `DoMove` succeeds exactly when `PushBox` does, and then leaves its board. |
| Day15.WideMoveKeepsCounts | 2024/Day15.cs:62-99 | A wide move keeps the number of cells carrying each label. |
| Day15.GpsUpdate | 2024/Day15.cs:157-160 | Writing one cell takes its `100*y + x` out of the sum or puts it in, as the labels say. |
| Day15.GpsSwap | 2024/Day15.cs:153-163 | Moving a box from `a` to `c` changes the sum by the difference of the two coordinates. |
| Day15.CalculateResult | 2024/Day15.cs:153-163 | The result is the sum of `100*y + x` over the cells with the given label. |
| Day15.FirstRobot | 2024/Day15.cs:143-151 | The first `'@'` in row-major order, or none when the board has no robot. |
| Day15.GetStartPosition | 2024/Day15.cs:143-151 | The nested loops return the first robot in row-major order, or `None` where the source throws. |
| Day15.IndexOfBlankLine | 2024/Day15.cs:167-168 | `IndexOf` finds the first blank-line delimiter from `i`, or -1 when there is none. |
| Day15.ReplaceChainWidens | 2024/Day15.cs:170-177 | The chain of `Replace` calls widens each tile on its own: `#`→`##`, `O`→`[]`, `.`→`..`, `@`→`@.`. |
| Day15.WidenDoubles | 2024/Day15.cs:170-177 | On a map of the four tiles each row doubles in length, and tile `i` becomes columns `2i` and `2i + 1`. |
| Day15.ParseTextRoundTrip | 2024/Day15.cs:165-184 | A map, a blank line and a moves line parse back to the map and the moves. |
| Day15.Parse | 2024/Day15.cs:165-184 | `Parse` builds a fresh grid holding the parsed board, with the moves. It fails exactly where the text has no delimiter or a ragged map. |
| Day15.NarrowRun | 2024/Day15.cs:16-17 | Each move in turn keeps the board's shape and the robot in the grid. |
| Day15.WideStep | 2024/Day15.cs:30-31 | One turn of part two keeps the board's shape. |
| Day15.WideRun | 2024/Day15.cs:28-32 | Every turn of part two keeps the board's shape. |
| Day15.NarrowRunFails | 2024/Day15.cs:16-17 | A run that throws on some move throws on the whole list. |
| Day15.Turn | 2024/Day15.cs:30-31 | The loop body runs `DoMove` only when `CanMove` holds. It leaves exactly the board and position that `WideStep` gives. |
| Day15.Solve1 | 2024/Day15.cs:10-20 | Part one parses, runs every narrow move in place and scores the `'O'` cells. |
| Day15.Solve2 | 2024/Day15.cs:22-35 | Part two parses the widened map, runs every turn in place and scores the `'['` cells. |
| Day15.NarrowRunKeepsCounts | 2024/Day15.cs:10-20 | Over a whole run of part one, each label keeps its number of cells: no box is lost or made. |
| Day15.WideRunKeepsCounts | 2024/Day15.cs:22-35 | Over a whole run of part two, each label keeps its number of cells. |
| QueueWeight.MinEntry | 2024/Day16.cs:82 | `TryDequeue` takes an entry of least cost. |
| QueueWeight.WeightDecreases | 2024/Day16.cs:82-104 | Replacing the popped entry by at most four entries of lower rank lowers the queue's weight. |
| QueueWeight.WeightBound | 2024/Day16.cs:78-105 | A queue's weight is at most its size times the largest rank weight. |
| Day16Paths.NextNodes | 2024/Day16.cs:110-121 | Exactly the open in-range neighbours, each with the direction moved, in the order Up, Right, Down, Left. |
| Day16Paths.StepCost | 2024/Day16.cs:89-91 | A step costs 1 when the direction stays the same and 1001 otherwise. |
| Day16Paths.ReachStep | 2024/Day16.cs:87-102 | One more move adds the step cost to a reachable state's cost. |
| Day16Paths.JoinPaths | 2024/Day16.cs:87-102 | A path to `m` joined to a path from `m` is a path, costing the sum of the two. |
| Day16Paths.PathCostSplit | 2024/Day16.cs:87-102 | A path's cost is the cost of its prefix to `i` plus the cost from `i`. |
| Day16Search.FindOpenPositions | 2024/Day16.cs:123-125 | The listed cells are exactly those that are not walls. |
| Day16Search.StatesOf | 2024/Day16.cs:72 | Exactly the states of the listed cells, in every direction. |
| Day16Search.FillTables | 2024/Day16.cs:72-76 | Every listed state gets `int.MaxValue` and an empty predecessor set. Every other key keeps its entry. |
| Day16Search.InitTables | 2024/Day16.cs:65-76 | The tables hold the start and every open state, each with an empty predecessor set. The start's 0 is overwritten when the start is open (see `GetShortestPaths`). |
| Day16Search.InitTablesFixed | 2024/Day16.cs:65-76 | Corrected setup: the same keys, with the start keeping cost 0. |
| Day16Search.RelaxNeighbour | 2024/Day16.cs:89-103 | Only `next` changes. A cheaper cost resets its predecessors to `{current}`. An equal cost adds `current`. Either way it is written and queued. A dearer cost changes nothing. |
| Day16Search.RelaxAll | 2024/Day16.cs:87-104 | Every listed neighbour is relaxed as above, and at most one entry per neighbour is queued. |
| Day16Search.Settle | 2024/Day16.cs:87-104 | Relaxes every neighbour `NextNodes` yields for the popped state, and nothing else. |
| Day16SearchInvariant.InvInit | 2024/Day16.cs:78-80 | The tables after setup with the queue seeded by `(start, 0)` satisfy the loop invariant. |
| Day16SearchInvariant.InvDiscard | 2024/Day16.cs:84-85 | A popped entry dearer than its recorded cost is dropped, and the invariant still holds. |
| Day16SearchInvariant.InvSettle | 2024/Day16.cs:86-104 | Settling a least entry keeps the invariant. Every pushed entry is dearer than the popped one. |
| Day16SearchInvariant.PredAt | 2024/Day16.cs:96-99 | Every recorded predecessor was popped at a cost that, plus the step cost, equals the state's recorded cost (local optimality). |
| Day16SearchInvariant.CostsNeverRise | 2024/Day16.cs:94-101 | Relaxing never raises a recorded cost. |
| Day16SearchInvariant.OrderedSettle | 2024/Day16.cs:82-104 | Settling a least entry keeps the queue at or above the new floor. |
| Day16SearchInvariant.InvDone | 2024/Day16.cs:82 | When the queue is empty, the tables are final. |
| Day16ShortestPaths.Step | 2024/Day16.cs:82-105 | One iteration keeps the invariant and lowers the queue's weight, so the loop ends. |
| Day16ShortestPaths.Relaxation | 2024/Day16.cs:78-105 | The loop ends with final tables. When the start kept 0, every entry popped and settled is the state's final cost. |
| Day16ShortestPaths.GetShortestPaths | 2024/Day16.cs:63-108 | The tables as written are final. An open start ends with a cost of at least 1, because its 0 was overwritten. |
| Day16ShortestPaths.GetShortestPathsFixed | 2024/Day16.cs:63-108 | Corrected: the start keeps cost 0 and no predecessor, and every settled entry is final. |
| Day16Optimality.CostBelowPaths | 2024/Day16.cs:63-108 | A recorded cost is at most the cost of any path from the start. When the start's 0 was overwritten, this covers paths of at least one move. |
| Day16Optimality.CostIsShortest | 2024/Day16.cs:63-108 | A finite recorded cost is the cost of some path, and no path is cheaper. |
| Day16Optimality.PredsAreTightMoves | 2024/Day16.cs:93-99 | When the start keeps 0, `p` is a recorded predecessor of `n` exactly when the move is tight: `costs[p] + step == costs[n]`. |
| Day16OptimalCells.EndCost | 2024/Day16.cs:22-24 | The minimum over the four end states: no end state is cheaper, and one costs exactly that. |
| Day16OptimalCells.EndCostIsOptimal | 2024/Day16.cs:38-40 | The least end cost bounds every path to the end cell from below, and some path costs exactly that. |
| Day16OptimalCells.OptimalMoveRecorded | 2024/Day16.cs:93-99 | Every move along a cheapest path is a recorded predecessor. |
| Day16OptimalCells.OptimalCells | 2024/Day16.cs:35-59 | When the end is reachable below `int.MaxValue`, the walk's cells are exactly the cells on some cheapest path from the start to the end cell. |
| Day16Walk.BackwardStep | 2024/Day16.cs:55-56 | A predecessor of a state reached backwards is reached backwards. |
| Day16Walk.WalkStep | 2024/Day16.cs:53-56 | Popping a state and queueing its predecessors keeps the walk invariant. |
| Day16Walk.ChainPopped | 2024/Day16.cs:51-57 | Once the queue is empty, every state reached backwards has been popped. |
| Day16Walk.WalkBounded | 2024/Day16.cs:51-57 | The walk as written, cut off after `fuel` iterations. A finished walk has recorded the end cell and exactly the cells reached backwards. With a predecessor cycle among the seeds it never finishes. |
| Day16Walk.WalkDecreases | 2024/Day16.cs:53-56 | When every predecessor is strictly cheaper, replacing a state by its predecessors lowers the walk's measure. |
| Day16Walk.Walk | 2024/Day16.cs:51-57 | Over strictly descending predecessors the walk ends, with the end cell and exactly the cells reached backwards. |
| Day16Corner.ReturnCost | 2024/Day16.cs:89-91 | Leaving the start and coming back to it costs at least two turns. |
| Day16Corner.CornerStartCost | 2024/Day16.cs:66-76 | On the corner maze the overwritten start ends at cost 2002, with the dead-end state as its predecessor. |
| Day16Corner.CornerTables | 2024/Day16.cs:63-108 | On the corner maze the start and the dead end are each other's predecessors. The start is a predecessor of a cheapest end state. |
| Day16.FindSingle | 2024/Day16.cs:127-135 | `.Single()` over the labelled cells: `Some(c)` exactly when `c` is the only cell with the label. |
| Day16.FindStartPosition | 2024/Day16.cs:132-135 | The only `'S'` cell, or `None` where `.Single()` throws. |
| Day16.FindEndPosition | 2024/Day16.cs:127-130 | The only `'E'` cell, or `None` where `.Single()` throws. |
| Day16.EndCostIsLeast | 2024/Day16.cs:20-24 | The minimum of the four end states is the least cost of a path to the end, even though the start's 0 was overwritten. |
| Day16.Solve1 | 2024/Day16.cs:14-25 | `None` exactly when the grid cannot be built from the text (a line shorter than the first) or the start or end cell is missing or repeated. Otherwise the least cost of reaching the end cell; `int.MaxValue` only when no cheaper path exists. |
| Day16.SeedQueue | 2024/Day16.cs:42-49 | The queue holds the predecessors of every end state whose cost is the minimum. |
| Day16.PredsAtMostFour | 2024/Day16.cs:96-99 | A state has at most four recorded predecessors. |
| Day16.Solve2 | 2024/Day16.cs:27-60 | Part two as written, bounded by `fuel`. It gives `BadGrid` exactly when a line of the text is shorter than the first, `MissingCell` exactly when the start or end cell is missing or repeated, and a count of at least 1. On the corner maze it never finishes. |
| Day16.Solve2Fixed | 2024/Day16.cs:27-60 | Corrected part two (start kept at 0). `None` exactly when the grid cannot be built or the start or end cell is missing or repeated. When the end is reachable, it counts exactly the cells on some cheapest path. |
| Day11Of2015.Successor | AdventOfCode/2015/Day11.cs:29-41 | The increment keeps the length and the characters after `i`. It fails where the source throws. |
| Day11Of2015.GetNextPassword | AdventOfCode/2015/Day11.cs:29-41 | The in-place increment succeeds exactly when `Successor` does, and leaves its result in the array. |
| Day11Of2015.SuccessorFails | AdventOfCode/2015/Day11.cs:31-39 | On lowercase letters the increment fails exactly when every letter through `i` is `'z'`. |
| Day11Of2015.SuccessorAddsOne | AdventOfCode/2015/Day11.cs:34-40 | The increment adds one to the base-26 value of the letters through `i` and keeps them lowercase. |
| Day11Of2015.NextIsBase26Successor | AdventOfCode/2015/Day11.cs:26-41 | Incrementing at position 7 is the base-26 successor of the first eight letters. It fails exactly on `"zzzzzzzz"` and on passwords shorter than eight. |
| Day11Of2015.SuccessorDecreases | AdventOfCode/2015/Day11.cs:17-21 | Every increment lowers a counter, so the search ends on every input. |
| Day11Of2015.Rule1 | AdventOfCode/2015/Day11.cs:43-52 | True exactly when some `i` has `p[i+1] == p[i]+1` and `p[i+2] == p[i]+2`. |
| Day11Of2015.Rule2 | AdventOfCode/2015/Day11.cs:54-55 | True exactly when no character is `'i'`, `'o'` or `'l'`. |
| Day11Of2015.FirstPairFrom | AdventOfCode/2015/Day11.cs:59-64 | The first loop of `Rule3` stops at the first adjacent equal pair, or at the end. |
| Day11Of2015.Rule3 | AdventOfCode/2015/Day11.cs:57-73 | True exactly when a pair at `j >= i + 2` differs in letter from the first pair at `i`. |
| Day11Of2015.PairAfterFirstIff | AdventOfCode/2015/Day11.cs:57-73 | Rule 3 holds exactly when the password has two pairs of different letters. |
| Day11Of2015.NextValid | AdventOfCode/2015/Day11.cs:13-24 | A returned password satisfies all three rules and keeps the length. |
| Day11Of2015.GetNextValidPassword | AdventOfCode/2015/Day11.cs:13-24 | The `do`–`while` loop over the array returns `NextValid`. |
| Day11Of2015.NextValidIsFirst | AdventOfCode/2015/Day11.cs:17-21 | The result is `n >= 1` increments away. No password met before it satisfies all three rules. |
| Day11Of2015.IterateAdds | AdventOfCode/2015/Day11.cs:26-41 | On lowercase letters, `n` increments add `n` to the base-26 value. |
| Day11Of2015.Solve1 | AdventOfCode/2015/Day11.cs:7-8 | Part one is the next valid password. |
| Day11Of2015.Solve2 | AdventOfCode/2015/Day11.cs:10-11 | Part two is the next valid password after that. |
| Day2Of2024.IsValid | 2024/Day2.cs:21-40 | The flag loop returns `Safe`: every step is 1 to 3 apart and the report keeps one direction. Lists of 0 or 1 levels are safe. |
| Day2Of2024.RemoveAt | 2024/Day2.cs:46-47 | `RemoveAt(i)` on a copy drops exactly position `i` and keeps the order of the rest. |
| Day2Of2024.IsValid2 | 2024/Day2.cs:42-53 | True exactly when removing some level leaves a safe report. False on the empty report. |
| Day2Of2024.SafeIsTolerated | 2024/Day2.cs:44-49 | A non-empty safe report is tolerated. The empty report is safe but not tolerated. |
| Day2Of2024.ParseAllLines | 2024/Day2.cs:55-59 | The lines convert exactly when each one does, and line `k` gives report `k`. |
| Day2Of2024.SafeCountAtMostTolerated | 2024/Day2.cs:7-19 | Without empty lines, part two counts at least as many reports as part one. |
| Day2Of2024.Solve1 | 2024/Day2.cs:7-12 | Part one counts the safe reports, and fails exactly where parsing does. |
| Day2Of2024.Solve2 | 2024/Day2.cs:14-19 | Part two counts the tolerated reports, and fails exactly where parsing does. |
| Day2Of2025.Repeat | 2025/Day2.cs:37 | `k` copies of a block are `k` times as long. |
| Day2Of2025.RepeatedIsInvalid | 2025/Day2.cs:30-38 | Any block repeated `k` times passes `IsInvalid(id, k)`. |
| Day2Of2025.IsInvalidPartsIff | 2025/Day2.cs:30-38 | `IsInvalid(id, k)` holds exactly when `id` is `k` copies of one block. |
| Day2Of2025.IsInvalid | 2025/Day2.cs:40-47 | True exactly when some count from 2 up to the length passes. An id of length at most 1 is never invalid. |
| Day2Of2025.RepeatedIsInvalidAnyCount | 2025/Day2.cs:40-47 | Every block repeated two or more times is invalid for part two. |
| Day2Of2025.Part1IdIsPart2Id | 2025/Day2.cs:40-47 | A non-empty id invalid for part one is invalid for part two. A one-character id is never invalid. |
| Day2Of2025.SumRange | 2025/Day2.cs:19-24 | The inner loop sums the invalid numbers of `[From, To]`, and gives 0 when `From > To`. |
| Day2Of2025.SolveRanges | 2025/Day2.cs:13-28 | The outer loop sums over the ranges. |
| Day2Of2025.ParseRange | 2025/Day2.cs:52-53 | A range parses to two non-negative `long`s. |
| Day2Of2025.ParseRangesInOrder | 2025/Day2.cs:49-54 | The ranges parse exactly when each piece does, one per comma-separated piece, in order. |
| Day2Of2025.Solve | 2025/Day2.cs:13-28 | The answer is the sum over the parsed ranges. It fails exactly where parsing does. |
| Day2Of2025.Part2AtLeastPart1 | 2025/Day2.cs:7-11 | On every input that parses, part two's answer is at least part one's. |
| Day10Of2015.Runs | AdventOfCode/2015/Day10.cs:33-45 | The runs of a text: none exactly for the empty text, and the last run has the last character. |
| Day10Of2015.RunsWellFormed | AdventOfCode/2015/Day10.cs:33-45 | Every run count is at least 1, and consecutive runs have different characters. |
| Day10Of2015.ExpandRuns | AdventOfCode/2015/Day10.cs:28-51 | Expanding the runs gives the text back. |
| Day10Of2015.RunsOfExpand | AdventOfCode/2015/Day10.cs:28-51 | A well-formed list of runs is the decomposition of its own expansion, so the decomposition is unique. |
| Day10Of2015.Process | AdventOfCode/2015/Day10.cs:28-51 | The loop gives the look-and-say step: each run's count then its character. It fails exactly on the empty input, where `input[^1]` throws. |
| Day10Of2015.LookAndSayNonEmpty | AdventOfCode/2015/Day10.cs:47-48 | A step on a non-empty text gives at least two characters, so only the first step can fail. |
| Day10Of2015.Solve | AdventOfCode/2015/Day10.cs:8-26 | The answer is the length after `steps` steps. With at least one step, it fails exactly on the empty input. |
| Day10Of2015.Solve1 | AdventOfCode/2015/Day10.cs:8-16 | Part one is the length after 40 steps. |
| Day10Of2015.Solve2 | AdventOfCode/2015/Day10.cs:18-26 | Part two is the length after 50 steps. |
| Day11Of2024.Blink | 2024/Day11.cs:25-32 | Each stone becomes one or two stones. |
| Day11Of2024.StonesBlink | 2024/Day11.cs:25-32 | A stone's count after one more blink is the sum over the stones it becomes. |
| Day11Of2024.StonesSplit | 2024/Day11.cs:27-30 | A stone with an even number of digits counts as its two halves, `v / 10^(k/2)` and `v % 10^(k/2)`. |
| Day11Of2024.TotalStonesSimulate | 2024/Day11.cs:13 | The recurrence summed over a line is the length of the line after `n` blinks. |
| Day11Of2024.StonesCountsTheLine | 2024/Day11.cs:15-37 | `Stones(v, n)` is the number of stones one stone `v` becomes after `n` blinks. |
| Day11Of2024.CacheInsert | 2024/Day11.cs:34 | Storing the recurrence's value keeps every cache entry correct. |
| Day11Of2024.StoneCounter.constructor | 2024/Day11.cs:11 | The cache starts empty. |
| Day11Of2024.StoneCounter.Count | 2024/Day11.cs:15-37 | The memoized `Count` returns exactly the unmemoized recurrence. Every cached entry stays correct and nothing cached is lost. |
| Day11Of2024.CountAll | 2024/Day11.cs:13 | The sum of `Count(x, 0)` over the stones, with one shared cache. |
| Day11Of2024.Solve | 2024/Day11.cs:9-13 | The answer is the number of stones after `steps` blinks. It fails exactly where parsing fails. |
| Day8Of2024.AntinodeSteps | 2024/Day8.cs:54 | Point `i` is `p1 + (i+1)(p1 - p2)`. |
| Day8Of2024.GetPointForDirection1 | 2024/Day8.cs:50-60 | Yields the points beyond `p1`, away from `p2`, up to the first one outside the grid and at most `count`. |
| Day8Of2024.GetPointForDirection2 | 2024/Day8.cs:62-72 | The same from `p2`, away from `p1`. |
| Day8Of2024.WalkedIsRay | 2024/Day8.cs:55-56 | Stopping at the first point outside loses nothing: the generator yields every point of the ray inside the grid. |
| Day8Of2024.InGridBetween | 2024/Day8.cs:74-78 | The grid is convex along a line: between an antenna and a point inside, every point is inside. |
| Day8Of2024.SingleStepRay | 2024/Day8.cs:16-20 | With `count = 1` each direction yields at most one point, so a pair gives at most two antinodes. |
| Day8Of2024.GroupStep | 2024/Day8.cs:87-93 | One cell of `ToMap`: `'.'` is skipped, and any other character gets the cell appended. |
| Day8Of2024.GroupRow | 2024/Day8.cs:85-94 | The inner loop of `ToMap` groups the cells of row `y`. |
| Day8Of2024.ToMap | 2024/Day8.cs:80-98 | Each non-`'.'` character that appears maps to exactly its cells, in row-major order, each listed once. |
| Day8Of2024.GridCellsAt | 2024/Day8.cs:80-98 | A cell is listed exactly when it lies in the grid and holds the character. |
| Day8Of2024.GridCellsDistinct | 2024/Day8.cs:80-98 | No cell is listed twice. |
| Day8Of2024.AddAll | 2024/Day8.cs:16-20 | `result.Add` over a list gives the union. |
| Day8Of2024.PairStep | 2024/Day8.cs:34-44 | The body of the pair loop adds the pair's antinodes, and in part two the two antennas. |
| Day8Of2024.FrequencyStep | 2024/Day8.cs:14-21 | The loop over `Utils.Pairs` adds the antinodes of every pair of one frequency. |
| Day8Of2024.Collect | 2024/Day8.cs:12-22 | Taking the dictionary's values in any order gives the antinodes of every frequency. |
| Day8Of2024.AntennaSetAt | 2024/Day8.cs:87-89 | A point is an antenna exactly when it is in the grid and does not hold `'.'`. |
| Day8Of2024.PairAntinodesSymmetric | 2024/Day8.cs:50-72 | A pair gives the same antinodes in either order. |
| Day8Of2024.PairsUnionAt | 2024/Day8.cs:14 | The union over the pairs `Utils.Pairs` yields is the union over all two positions `i < j`. |
| Day8Of2024.GroupedAntinodes | 2024/Day8.cs:9-24 | The antinodes found through the grouped frequencies are exactly the antinodes of every two distinct same-character antennas. |
| Day8Of2024.Solve | 2024/Day8.cs:7-48 | The answer is the number of antinodes. It fails exactly where the matrix cannot be read (a short row). |
| Day8Of2024.Solve1 | 2024/Day8.cs:7-25 | Part one: one step on each side of every pair. |
| Day8Of2024.Solve2 | 2024/Day8.cs:27-48 | Part two: every step inside the grid, plus the antennas of every pair. |
| Day9Of2015.BuildGraph | AdventOfCode/2015/Day9.cs:17-24 | The first loop builds the edge table and the place list. |
| Day9Of2015.TableAt | AdventOfCode/2015/Day9.cs:19-20 | A pair has an entry exactly when some line joins it. The entry is the distance of the last such line. |
| Day9Of2015.TableSymmetric | AdventOfCode/2015/Day9.cs:19-20 | Both directions are present together, with the same distance. |
| Day9Of2015.PlacesListed | AdventOfCode/2015/Day9.cs:22-23 | Every place a line names is listed exactly once. |
| Day9Of2015.GetDistance | AdventOfCode/2015/Day9.cs:40-50 | The loop sums the edges between consecutive stops (0 for at most one stop). It fails where an edge is missing. |
| Day9Of2015.NoneStaysNone | AdventOfCode/2015/Day9.cs:44-47 | Once a prefix misses an edge, so does every longer prefix. |
| Day9Of2015.RouteDistanceFront | AdventOfCode/2015/Day9.cs:44-47 | Distance splits off the first stop as well as the last. |
| Day9Of2015.ReverseSameDistance | AdventOfCode/2015/Day9.cs:40-50 | On a symmetric table a route and its reverse have the same distance. |
| Day9Of2015.DistancesAt | AdventOfCode/2015/Day9.cs:30-35 | The distances exist exactly when every route has one. They are then listed route by route. |
| Day9Of2015.MinAtMostMax | AdventOfCode/2015/Day9.cs:28-37 | With at least one route the minimum is at most the maximum. |
| Day9Of2015.Extremes | AdventOfCode/2015/Day9.cs:28-35 | The loop gives the least and greatest distance: both bound every distance, and each is reached or is its start value. |
| Day9Of2015.Solve | AdventOfCode/2015/Day9.cs:12-38 | The minimum and maximum distance over the routes `Utils.Permutations` lists, which are exactly the orderings of the places (`RoutesOf`). It fails where a route uses an unlisted pair. |
| Day9Of2015.RoutesOf | AdventOfCode/2015/Day9.cs:26 | With `n >= 1` places there are `n!` routes. A list is a route exactly when it is an ordering of the places. Every reversed route has the same distance. |
| Day9Of2015.Solve1 | AdventOfCode/2015/Day9.cs:8 | Part one is the minimum distance. |
| Day9Of2015.Solve2 | AdventOfCode/2015/Day9.cs:10 | Part two is the maximum distance. |

## Left out

- Input text, `[Fact]` tests and the large `Input` constants are test data. The concrete expected answers are not evaluated. These include:
  - 123540 for day 16;
  - 1429911 and 1453087 for day 15;
  - `"hepxxyzz"` and `"heqaabcc"`;
  - 379 and 430;
  - 1227775554 and 4174379265;
  - 492982 and 6989950;
  - 117 and 909;
  - the 2024 day 11 counts 1, 1, 2, 2, 3, 5 for `"125"`.

  The literal arguments would make the recursive definitions unfold far beyond what the verifier evaluates cheaply.
- `Environment.NewLine` is taken to be `"\n"`. Day solvers receive their input as text split at `'\n'`.
- Exceptions thrown on the puzzle input (`KeyNotFoundException`, a short line in the grid and matrix constructors, `.Single()` on zero or many cells, `ArgumentException`) are an `Option` result of `None`, or `BadGrid`/`MissingCell`.
- Index bounds of the grid indexers, the array swaps and the union–find operations are preconditions of the callers, not `None`: `Grid2D.CharGrid.Get`/`GetAt`/`Set`/`SetAt`, `Utils.Swap`, `Day15.Swap` and `UnionFindForest.UnionFind.Find`/`Union`/`Connected`/`ComponentSize`. The source throws `IndexOutOfRangeException` there. Every call in the model meets them.
- `int` and `long` overflow is not modelled; arithmetic is on unbounded integers. This covers:
  - 2024 day 2's `items[i + 1] - items[i]`, which can wrap, and `Math.Abs(int.MinValue)`, which throws;
  - the path costs of day 16;
  - `100*y + x` in day 15;
  - the sums of 2025 day 2 and 2024 day 11;
  - `v * 2024`;
  - the route sums of day 9.

  `int.MaxValue` is kept where the code uses it as "infinite" (day 16, day 9's start values, day 8's default `count`). The conversion bounds of `int.Parse`/`long.Parse` are modelled.
- `Utils.Subsets`: `1 << items.Count` is modelled as `2^n`. The 32-bit shift with a count above 31 is not modelled.
- `Math.Log10` and `Math.Pow` in 2024 day 11 are the exact digit count and power of ten. A negative stone value (only from malformed input) takes the multiply branch.
- The `PriorityQueue` of day 16 is a multiset with extraction of some least entry. Its tie order is unspecified, and the proofs hold for every order.
- The FIFO `Queue<Node>` of day 16's backward walk is a multiset from which any state may be taken. The first-in, first-out order is not modelled; the proofs hold for every order.
- `Day16.Solve2`: the walk as written is bounded by a `fuel` parameter, because on some mazes it does not terminate. The model states that on the corner maze it never finishes for any fuel. It does not state what the count is when it finishes.
- Day15.WideStep: it is not proved that `CanMove` returning true makes `DoMove` succeed. The model keeps `DoMove`'s failure path; vertical pushes of stacked boxes share cells, and this proof is left out.
- Day15.Push, Day15.PushBox, Day15.WideMove: they state the board's shape and the kept label counts. The exact cells written are stated in `PushShifts`/`PushStays` for narrow boxes only.
- `HashSet` enumeration order is left out:
  - In 2015 day 9 the places are listed in first-seen order. The answer does not depend on the order.
  - In 2024 day 8 the dictionary's values are taken in any order (`Collect`).
- The regex `ParseLine` of 2015 day 9 is not modelled. The solver starts from the list of parsed lines.
- Number parsing uses the invariant culture's signs, `'+'` and `'-'`. Other cultures' sign strings are not modelled.
- `Utils.ParseList<T>` and `Convert.ChangeType` are specialised:
  - `ParseList` to `int` and `long` on a `char` separator (2024 day 11 passes the one-character string `" "`);
  - `ParseMatrix` to `char`.
- Grid2D holds `char` only. The generic `T` of `Grid2D<T>` and `Cell2D<T>` is fixed to `char`, whose `default` is `'\0'`.
- `Day16Paths.PathCost` and the costs in the tables are unbounded. The int overflow of `currentCost + 1001` near `int.MaxValue` is not modelled.
- 2015/Day4.cs (MD5 through a foreign library) and Template.cs (no logic) are not part of this model.
- The xUnit test classes are not modelled as code. Their claims appear as lemmas and method contracts:
  - `UnionChain`;
  - `SubsetsDistinct`;
  - `Find` leaves every root unchanged, so it is idempotent;
  - `Connected` is symmetric.

## Findings

| source | as written | input that shows it | evidently intended | confidence | as-written member | corrected member |
|---|---|---|---|---|---|---|
| 2024/Day16.cs:66-76 and 51-57 | The setup loop overwrites the start's cost 0 with `int.MaxValue`. The start can then be relaxed back from a neighbour, and the two become each other's predecessors. The backward walk has no visited set, so it re-queues that cycle forever. | The maze `["#####", "#.SE#", "#####"]`: the start at (1,2) facing east, a dead end at (1,1), the end at (1,3). | The start keeps cost 0, so every predecessor is strictly cheaper and the walk ends. It then counts exactly the cells on cheapest paths. | not executed | Day16.Solve2 | Day16.Solve2Fixed |

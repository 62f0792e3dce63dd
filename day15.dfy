/**
 * Model of 2024/Day15.cs: a robot `'@'` pushes boxes around a walled
 * warehouse. Part one has one-cell boxes `'O'`; part two works on a grid
 * widened twice over, where a box is the pair `"[]"` and a vertical push
 * moves both halves. The grid is a `CharGrid` changed in place; every
 * method that changes it is proved against a function on its value view
 * (`Board`), and the properties are proved about those functions.
 * An exception in the source is `None` here.
 */
module Day15 {
  import opened Wrappers
  import opened Strings
  import opened Grid2D
  import Parser

  // ---------------------------------------------------------------------
  // Moves

  /** The direction a move character stands for; none for any other character. */
  function Offset(move: char): (v: Option<Vector2D>)
    ensures v.Some? <==> move in "^>v<"
    ensures v.Some? ==> v.value.IsDirection()
  {
    match move
    case '^' => Some(Up)
    case '>' => Some(Right)
    case 'v' => Some(Down)
    case '<' => Some(Left)
    case _ => None
  }

  /**
   * `TryGetNewPosition`: the neighbour of `position` in the direction of
   * `move`, flagged with whether it lies in the grid; `None` for a character
   * that is not a move (the source throws).
   */
  function TryGetNewPosition(g: CharGrid, position: Cell2D, move: char): (r: Option<(bool, Cell2D)>)
    ensures r.Some? <==> Offset(move).Some?
    ensures r.Some? ==> r.value.1 == position.Add(Offset(move).value)
    ensures r.Some? ==> (r.value.0 <==> g.IsInRange(r.value.1))
  {
    match Offset(move)
    case None => None
    case Some(v) =>
      var newPosition := position.Add(v);
      Some((g.IsInRange(newPosition), newPosition))
  }

  function Clamp(n: int): nat
  {
    if n < 0 then 0 else n
  }

  /** How many steps in direction `v` separate `p` from the border: the measure every push recursion decreases. */
  function Reach(rows: nat, columns: nat, p: Cell2D, v: Vector2D): nat
  {
    if v == Up then Clamp(p.y)
    else if v == Down then Clamp(rows - 1 - p.y)
    else if v == Left then Clamp(p.x)
    else Clamp(columns - 1 - p.x)
  }

  /** The cell `k` steps from `p` in direction `v`. */
  function Ahead(p: Cell2D, v: Vector2D, k: int): Cell2D
  {
    if v == Up then Cell2D(p.y - k, p.x)
    else if v == Down then Cell2D(p.y + k, p.x)
    else if v == Left then Cell2D(p.y, p.x - k)
    else Cell2D(p.y, p.x + k)
  }

  lemma AheadStep(p: Cell2D, v: Vector2D, k: int)
    requires v.IsDirection()
    ensures Ahead(p, v, 1) == p.Add(v)
    ensures Ahead(p.Add(v), v, k) == Ahead(p, v, k + 1)
    ensures k != 0 ==> Ahead(p, v, k) != p
  {
  }

  /** A second write to a cell supersedes the first. */
  lemma UpdateOverwrite(b: Board, c: Cell2D, v: char, w: char)
    requires Rectangular(b) && InRange(b, c)
    ensures Update(Update(b, c, v), c, w) == Update(b, c, w)
  {
    assert Update(b, c, v)[c.y][c.x := w] == b[c.y][c.x := w];
  }

  /** Writing a cell's own label changes nothing. */
  lemma UpdateSame(b: Board, c: Cell2D)
    requires Rectangular(b) && InRange(b, c)
    ensures Update(b, c, At(b, c)) == b
  {
    assert b[c.y][c.x := At(b, c)] == b[c.y];
  }

  // ---------------------------------------------------------------------
  // Swap

  /** The board with the labels of `a` and `c` exchanged, written as `Swap` writes them. */
  function SwapCells(b: Board, a: Cell2D, c: Cell2D): (r: Board)
    requires Rectangular(b) && InRange(b, a) && InRange(b, c)
    ensures Rectangular(r) && Height(r) == Height(b) && Width(r) == Width(b)
  {
    Update(Update(b, c, At(b, a)), a, At(b, c))
  }

  /** A swap exchanges exactly the two labels and leaves every other cell alone. */
  lemma SwapExchanges(b: Board, a: Cell2D, c: Cell2D, d: Cell2D)
    requires Rectangular(b) && InRange(b, a) && InRange(b, c) && InRange(b, d)
    ensures At(SwapCells(b, a, c), a) == At(b, c) && At(SwapCells(b, a, c), c) == At(b, a)
    ensures d != a && d != c ==> At(SwapCells(b, a, c), d) == At(b, d)
  {
  }

  /** `Swap`. */
  method Swap(g: CharGrid, position: Cell2D, newPosition: Cell2D)
    requires g.IsInRange(position) && g.IsInRange(newPosition)
    modifies g.cells
    ensures g.Snapshot() == SwapCells(old(g.Snapshot()), position, newPosition)
  {
    var temp := g.GetAt(newPosition);
    g.SetAt(newPosition, g.GetAt(position));
    g.SetAt(position, temp);
  }

  // ---------------------------------------------------------------------
  // How many cells carry a label

  function RowCount(row: seq<char>, ch: char): nat
  {
    if |row| == 0 then 0 else RowCount(row[..|row| - 1], ch) + (if row[|row| - 1] == ch then 1 else 0)
  }

  function Count(b: Board, ch: char): nat
  {
    if |b| == 0 then 0 else Count(b[..|b| - 1], ch) + RowCount(b[|b| - 1], ch)
  }

  function Indicator(p: bool): nat
  {
    if p then 1 else 0
  }

  lemma {:induction false} RowCountUpdate(row: seq<char>, x: nat, v: char, ch: char)
    requires x < |row|
    ensures RowCount(row[x := v], ch) + Indicator(row[x] == ch) == RowCount(row, ch) + Indicator(v == ch)
    decreases |row|
  {
    var n := |row| - 1;
    var row' := row[x := v];
    if x < n {
      assert row'[..n] == row[..n][x := v];
      RowCountUpdate(row[..n], x, v, ch);
    } else {
      assert row'[..n] == row[..n];
    }
  }

  lemma {:induction false} CountRow(b: Board, y: nat, row: seq<char>, ch: char)
    requires y < |b|
    ensures Count(b[y := row], ch) + RowCount(b[y], ch) == Count(b, ch) + RowCount(row, ch)
    decreases |b|
  {
    var n := |b| - 1;
    var b' := b[y := row];
    if y < n {
      assert b'[..n] == b[..n][y := row];
      CountRow(b[..n], y, row, ch);
    } else {
      assert b'[..n] == b[..n];
    }
  }

  /** Writing one cell trades one occurrence of its old label for one of the new. */
  lemma CountUpdate(b: Board, c: Cell2D, v: char, ch: char)
    requires Rectangular(b) && InRange(b, c)
    ensures Count(Update(b, c, v), ch) + Indicator(At(b, c) == ch) == Count(b, ch) + Indicator(v == ch)
  {
    var row := b[c.y];
    CountRow(b, c.y, row[c.x := v], ch);
    RowCountUpdate(row, c.x, v, ch);
  }

  /** A swap keeps the number of cells carrying each label. */
  lemma SwapKeepsCounts(b: Board, a: Cell2D, c: Cell2D, ch: char)
    requires Rectangular(b) && InRange(b, a) && InRange(b, c)
    ensures Count(SwapCells(b, a, c), ch) == Count(b, ch)
  {
    var b1 := Update(b, c, At(b, a));
    CountUpdate(b, c, At(b, a), ch);
    CountUpdate(b1, a, At(b, c), ch);
    assert At(b1, a) == At(b, a);
  }

  // ---------------------------------------------------------------------
  // Part one: single-cell boxes

  /**
   * What `TryMove` does to the board and where it leaves the mover: a box
   * ahead is pushed first; then the mover steps ahead if that cell is free.
   */
  function Push(b: Board, p: Cell2D, v: Vector2D): (r: (Board, Cell2D))
    requires Rectangular(b) && InRange(b, p) && v.IsDirection()
    ensures Rectangular(r.0) && Height(r.0) == Height(b) && Width(r.0) == Width(b)
    ensures r.1 == p || r.1 == p.Add(v)
    ensures InRange(r.0, r.1)
    decreases Reach(Height(b), Width(b), p, v)
  {
    var np := p.Add(v);
    if !InRange(b, np) then (b, p)
    else
      var b1 := if At(b, np) == 'O' then Push(b, np, v).0 else b;
      if At(b1, np) == '.' then (SwapCells(b1, p, np), np) else (b1, p)
  }

  /** `TryMove`. */
  method TryMove(g: CharGrid, position: Cell2D, move: char) returns (r: Cell2D)
    requires g.IsInRange(position) && Offset(move).Some?
    modifies g.cells
    ensures (g.Snapshot(), r) == Push(old(g.Snapshot()), position, Offset(move).value)
    decreases Reach(g.Rows(), g.Columns(), position, Offset(move).value)
  {
    var t := TryGetNewPosition(g, position, move);
    var newPosition := t.value.1;
    if !t.value.0 {
      return position;
    }
    if g.GetAt(newPosition) == 'O' {
      var _ := TryMove(g, newPosition, move);
    }
    if g.GetAt(newPosition) == '.' {
      Swap(g, position, newPosition);
      return newPosition;
    }
    return position;
  }

  /**
   * The mover at `p` can step in direction `v` because the `k - 1` cells
   * ahead of it hold boxes and the `k`-th is free.
   */
  predicate ClearAhead(b: Board, p: Cell2D, v: Vector2D, k: int)
    requires Rectangular(b)
  {
    k >= 1 && InRange(b, Ahead(p, v, k)) && At(b, Ahead(p, v, k)) == '.' &&
    forall j | 1 <= j < k :: InRange(b, Ahead(p, v, j)) && At(b, Ahead(p, v, j)) == 'O'
  }

  /** The line ahead of `p` is one box and then the line ahead of that box. */
  lemma ClearAheadBehind(b: Board, p: Cell2D, v: Vector2D, k: int)
    requires Rectangular(b) && v.IsDirection() && k >= 2
    requires InRange(b, p.Add(v)) && At(b, p.Add(v)) == 'O'
    ensures ClearAhead(b, p, v, k) <==> ClearAhead(b, p.Add(v), v, k - 1)
  {
    AheadStep(p, v, k - 1);
    forall j | 1 <= j < k - 1 ensures Ahead(p.Add(v), v, j) == Ahead(p, v, j + 1) {
      AheadStep(p, v, j);
    }
    forall j | 2 <= j < k ensures Ahead(p, v, j) == Ahead(p.Add(v), v, j - 1) {
      AheadStep(p, v, j - 1);
    }
  }

  /** The board after the mover at `p` pushes the `k - 1` boxes ahead of it one step. */
  function Shifted(b: Board, p: Cell2D, v: Vector2D, k: int): Board
    requires Rectangular(b) && InRange(b, p) && InRange(b, p.Add(v)) && InRange(b, Ahead(p, v, k))
  {
    Update(Update(Update(b, Ahead(p, v, k), 'O'), p.Add(v), At(b, p)), p, '.')
  }

  /**
   * When the line ahead is `k - 1` boxes and then a free cell, the mover
   * steps ahead, leaves a free cell behind and the line of boxes shifts:
   * the free cell now holds a box.
   */
  lemma {:induction false} PushShifts(b: Board, p: Cell2D, v: Vector2D, k: int)
    requires Rectangular(b) && InRange(b, p) && v.IsDirection() && ClearAhead(b, p, v, k)
    ensures InRange(b, p.Add(v))
    ensures Push(b, p, v) == (Shifted(b, p, v, k), p.Add(v))
    decreases k
  {
    var np := p.Add(v);
    AheadStep(p, v, 0);
    if k == 1 {
      UpdateOverwrite(b, np, 'O', At(b, p));
    } else {
      ClearAheadBehind(b, p, v, k);
      PushShifts(b, np, v, k - 1);
      ShiftedStep(b, p, v, k);
    }
  }

  /** Swapping the mover into the cell its box left completes the shift of the line. */
  lemma ShiftedStep(b: Board, p: Cell2D, v: Vector2D, k: int)
    requires Rectangular(b) && InRange(b, p) && v.IsDirection() && k >= 2
    requires ClearAhead(b, p, v, k) && ClearAhead(b, p.Add(v), v, k - 1)
    requires InRange(b, p.Add(v).Add(v))
    ensures InRange(b, p.Add(v))
    ensures SwapCells(Shifted(b, p.Add(v), v, k - 1), p, p.Add(v)) == Shifted(b, p, v, k)
  {
    var np := p.Add(v);
    AheadStep(p, v, 0);
    AheadStep(p, v, 1);
    AheadStep(p, v, 2);
    AheadStep(p, v, k - 1);
    AheadStep(p, v, k);
    var b1 := Shifted(b, np, v, k - 1);
    var far := Ahead(p, v, k);
    var b0 := Update(b, far, 'O');
    // b1 is b0 with 'O' written to np.Add(v) and then '.' to np, and the
    // first of those writes changes nothing: far is that cell or it holds a box.
    if k == 2 {
      UpdateOverwrite(b, far, 'O', 'O');
    } else {
      assert At(b, Ahead(p, v, 2)) == 'O';
      UpdateSame(b0, np.Add(v));
    }
    assert Update(b0, np.Add(v), At(b, np)) == b0;
    assert b1 == Update(b0, np, '.');
    assert At(b1, p) == At(b, p);
    UpdateOverwrite(b0, np, '.', At(b, p));
  }

  /** A mover that does not step ahead leaves the board exactly as it was. */
  lemma {:induction false} PushStays(b: Board, p: Cell2D, v: Vector2D)
    requires Rectangular(b) && InRange(b, p) && v.IsDirection()
    ensures Push(b, p, v).1 != p.Add(v) ==> Push(b, p, v).0 == b
    decreases Reach(Height(b), Width(b), p, v)
  {
    var np := p.Add(v);
    if InRange(b, np) && At(b, np) == 'O' {
      PushStays(b, np, v);
    }
  }

  /** A mover that steps ahead had a line of boxes and then a free cell ahead of it. */
  lemma {:induction false} PushMovesClear(b: Board, p: Cell2D, v: Vector2D)
    requires Rectangular(b) && InRange(b, p) && v.IsDirection()
    requires Push(b, p, v).1 == p.Add(v)
    ensures exists k :: ClearAhead(b, p, v, k)
    decreases Reach(Height(b), Width(b), p, v)
  {
    var np := p.Add(v);
    AheadStep(p, v, 0);
    if At(b, np) == '.' {
      assert ClearAhead(b, p, v, 1);
    } else {
      PushStays(b, np, v);
      PushMovesClear(b, np, v);
      var k :| ClearAhead(b, np, v, k);
      ClearAheadBehind(b, p, v, k + 1);
    }
  }

  /** The mover steps ahead if and only if the line ahead is boxes and then a free cell. */
  lemma PushMovesIff(b: Board, p: Cell2D, v: Vector2D)
    requires Rectangular(b) && InRange(b, p) && v.IsDirection()
    ensures Push(b, p, v).1 == p.Add(v) <==> exists k :: ClearAhead(b, p, v, k)
  {
    if Push(b, p, v).1 == p.Add(v) {
      PushMovesClear(b, p, v);
    }
    if exists k :: ClearAhead(b, p, v, k) {
      var k :| ClearAhead(b, p, v, k);
      PushShifts(b, p, v, k);
    }
  }

  /** A push keeps the number of cells carrying each label: boxes are neither lost nor made. */
  lemma {:induction false} PushKeepsCounts(b: Board, p: Cell2D, v: Vector2D, ch: char)
    requires Rectangular(b) && InRange(b, p) && v.IsDirection()
    ensures Count(Push(b, p, v).0, ch) == Count(b, ch)
    decreases Reach(Height(b), Width(b), p, v)
  {
    var np := p.Add(v);
    if InRange(b, np) {
      var b1 := if At(b, np) == 'O' then Push(b, np, v).0 else b;
      if At(b, np) == 'O' {
        PushKeepsCounts(b, np, v, ch);
      }
      if At(b1, np) == '.' {
        SwapKeepsCounts(b1, p, np, ch);
      }
    }
  }

  // ---------------------------------------------------------------------
  // Part two: two-cell boxes "[]"

  /** C#'s `&&` on results that may be an exception: the right side counts only after a `true`. */
  function AndAlso(a: Option<bool>, b: Option<bool>): (r: Option<bool>)
    ensures r == Some(true) <==> a == Some(true) && b == Some(true)
  {
    match a
    case None => None
    case Some(x) => if x then b else Some(false)
  }

  /** What `CanMove` returns for the mover at `p` on board `b`. */
  ghost function Movable(b: Board, p: Cell2D, move: char): (r: Option<bool>)
    requires Rectangular(b)
    ensures r.Some? ==> Offset(move).Some?
    decreases if Offset(move).Some? then Reach(Height(b), Width(b), p, Offset(move).value) else 0
  {
    match Offset(move)
    case None => None
    case Some(v) =>
      var np := p.Add(v);
      if !InRange(b, np) then Some(false)
      else
        var cell := At(b, np);
        if cell == '.' then Some(true)
        else if cell == '#' then Some(false)
        else if cell == '[' && move == '>' then Movable(b, np.Add(Right), move)
        else if cell == '[' && (move == '^' || move == 'v') then
          AndAlso(Movable(b, np.Add(Right), move), Movable(b, np, move))
        else if cell == ']' && move == '<' then Movable(b, np.Add(Left), move)
        else if cell == ']' && (move == '^' || move == 'v') then
          AndAlso(Movable(b, np.Add(Left), move), Movable(b, np, move))
        else None
  }

  /** `CanMove`, reading the grid in place. */
  function CanMove(g: CharGrid, position: Cell2D, move: char): (r: Option<bool>)
    reads g.cells
    ensures r == Movable(g.Snapshot(), position, move)
    decreases if Offset(move).Some? then Reach(g.Rows(), g.Columns(), position, Offset(move).value) else 0
  {
    match TryGetNewPosition(g, position, move)
    case None => None
    case Some((inside, newPosition)) =>
      if !inside then Some(false)
      else
        var newValue := g.GetAt(newPosition);
        if newValue == '.' then Some(true)
        else if newValue == '#' then Some(false)
        else if newValue == '[' && move == '>' then CanMove(g, newPosition.Add(Right), move)
        else if newValue == '[' && (move == '^' || move == 'v') then
          AndAlso(CanMove(g, newPosition.Add(Right), move), CanMove(g, newPosition, move))
        else if newValue == ']' && move == '<' then CanMove(g, newPosition.Add(Left), move)
        else if newValue == ']' && (move == '^' || move == 'v') then
          AndAlso(CanMove(g, newPosition.Add(Left), move), CanMove(g, newPosition, move))
        else None
  }

  /** The `j`-th cell a horizontal check looks at: every other cell, starting next to `p`. */
  function Checked(p: Cell2D, v: Vector2D, j: int): Cell2D
  {
    Ahead(p, v, 2 * j + 1)
  }

  /**
   * Looking in direction `v`, the cells `1, 3, ..., 2k - 1` steps ahead hold
   * `half` and the cell `2k + 1` steps ahead is free.
   */
  predicate HalvesThenFree(b: Board, p: Cell2D, v: Vector2D, half: char, k: int)
    requires Rectangular(b)
  {
    k >= 0 && InRange(b, Checked(p, v, k)) && At(b, Checked(p, v, k)) == '.' &&
    forall j | 0 <= j < k :: InRange(b, Checked(p, v, j)) && At(b, Checked(p, v, j)) == half
  }

  /** Past one near half, the check goes on two cells further along. */
  lemma HalvesBehind(b: Board, p: Cell2D, v: Vector2D, half: char, k: int)
    requires Rectangular(b) && v.IsDirection() && half != '.' && k >= 1
    requires InRange(b, p.Add(v)) && At(b, p.Add(v)) == half
    ensures HalvesThenFree(b, p, v, half, k) <==> HalvesThenFree(b, p.Add(v).Add(v), v, half, k - 1)
  {
    var q := p.Add(v).Add(v);
    AheadStep(p, v, 0);
    forall j ensures Checked(q, v, j) == Checked(p, v, j + 1) {
      AheadStep(p, v, 2 * j + 2);
      AheadStep(p.Add(v), v, 2 * j + 1);
    }
    forall j ensures Checked(p, v, j) == Checked(q, v, j - 1) {
      AheadStep(p, v, 2 * j);
      AheadStep(p.Add(v), v, 2 * j - 1);
    }
  }

  /** The check starts next to `p`: that cell is free or a near half. */
  lemma HalvesStart(b: Board, p: Cell2D, v: Vector2D, half: char, k: int)
    requires Rectangular(b) && v.IsDirection()
    ensures HalvesThenFree(b, p, v, half, k) ==>
              InRange(b, p.Add(v)) && (At(b, p.Add(v)) == '.' || At(b, p.Add(v)) == half)
  {
    AheadStep(p, v, 0);
    if HalvesThenFree(b, p, v, half, k) && k > 0 {
      assert InRange(b, Checked(p, v, 0));
    }
  }

  /**
   * A horizontal push into `"[]"` boxes is possible exactly when, looking
   * along the row, every box's near half (`'['` going right, `']'` going
   * left) is followed, after its other half, by another box or by a free
   * cell, and a free cell comes first. The far halves are not looked at.
   */
  lemma {:induction false} MovableHorizontal(b: Board, p: Cell2D, move: char, v: Vector2D, half: char)
    requires Rectangular(b)
    requires (move == '>' && v == Right && half == '[') || (move == '<' && v == Left && half == ']')
    ensures Movable(b, p, move) == Some(true) <==> exists k :: HalvesThenFree(b, p, v, half, k)
    decreases Reach(Height(b), Width(b), p, v)
  {
    var np := p.Add(v);
    AheadStep(p, v, 0);
    assert Checked(p, v, 0) == np;
    if InRange(b, np) && At(b, np) == half {
      var q := np.Add(v);
      MovableHorizontal(b, q, move, v, half);
      if exists k :: HalvesThenFree(b, q, v, half, k) {
        var k :| HalvesThenFree(b, q, v, half, k);
        HalvesBehind(b, p, v, half, k + 1);
      }
      if exists k :: HalvesThenFree(b, p, v, half, k) {
        var k :| HalvesThenFree(b, p, v, half, k);
        HalvesBehind(b, p, v, half, k);
      }
    } else if InRange(b, np) && At(b, np) == '.' {
      assert HalvesThenFree(b, p, v, half, 0);
    } else {
      forall k ensures !HalvesThenFree(b, p, v, half, k) {
        HalvesStart(b, p, v, half, k);
      }
    }
  }


  /**
   * What `DoMove` does to the board: the box at the cell ahead is pushed
   * first, then the mover swaps with the cell ahead. `None` where the source
   * throws: a cell ahead outside the grid, or a mover outside it.
   */
  ghost function WideMove(b: Board, p: Cell2D, move: char): (r: Option<Board>)
    requires Rectangular(b) && Offset(move).Some?
    ensures r.Some? ==> Rectangular(r.value) && Height(r.value) == Height(b) && Width(r.value) == Width(b)
    ensures r.Some? ==> InRange(b, p) && InRange(b, p.Add(Offset(move).value))
    decreases Reach(Height(b), Width(b), p, Offset(move).value), 1
  {
    var np := p.Add(Offset(move).value);
    if !InRange(b, np) then None
    else
      match PushBox(b, np, move)
      case None => None
      case Some(b2) => if InRange(b2, p) then Some(SwapCells(b2, p, np)) else None
  }

  /**
   * The `switch` of `DoMove` on the label at `np`, the cell ahead: a box half
   * met from its own side moves with its other half, either by pushing the
   * other half and swapping the near one after it (horizontal) or by moving
   * both halves (vertical); any other label is left for the final swap.
   */
  ghost function PushBox(b: Board, np: Cell2D, move: char): (r: Option<Board>)
    requires Rectangular(b) && Offset(move).Some? && InRange(b, np)
    ensures r.Some? ==> Rectangular(r.value) && Height(r.value) == Height(b) && Width(r.value) == Width(b)
    decreases Reach(Height(b), Width(b), np, Offset(move).value), 2
  {
    var vertical := move == '^' || move == 'v';
    var other := if At(b, np) == ']' then np.Add(Left) else np.Add(Right);
    if (At(b, np) == ']' && move == '<') || (At(b, np) == '[' && move == '>') then
      match WideMove(b, other, move)
      case None => None
      case Some(b1) => Some(SwapCells(b1, other, np))
    else if (At(b, np) == ']' || At(b, np) == '[') && vertical then
      match WideMove(b, other, move)
      case None => None
      case Some(b1) => WideMove(b1, np, move)
    else Some(b)
  }

  /** `DoMove`: the mover ends on the cell ahead; `None` where the source throws. */
  method DoMove(g: CharGrid, position: Cell2D, move: char) returns (r: Option<Cell2D>)
    requires Offset(move).Some?
    modifies g.cells
    ensures r.Some? <==> WideMove(old(g.Snapshot()), position, move).Some?
    ensures r.Some? ==> r.value == position.Add(Offset(move).value)
    ensures r.Some? ==> g.Snapshot() == WideMove(old(g.Snapshot()), position, move).value
    decreases Reach(g.Rows(), g.Columns(), position, Offset(move).value), 1
  {
    var t := TryGetNewPosition(g, position, move);
    var newPosition := t.value.1;
    if !t.value.0 {
      return None;
    }
    var ok := MoveBox(g, newPosition, move);
    if !ok || !g.IsInRange(position) {
      return None;
    }
    Swap(g, position, newPosition);
    return Some(newPosition);
  }

  /** The `switch` of `DoMove`: moves the box at `newPosition` out of the way. */
  method MoveBox(g: CharGrid, newPosition: Cell2D, move: char) returns (ok: bool)
    requires Offset(move).Some? && g.IsInRange(newPosition)
    modifies g.cells
    ensures ok <==> PushBox(old(g.Snapshot()), newPosition, move).Some?
    ensures ok ==> g.Snapshot() == PushBox(old(g.Snapshot()), newPosition, move).value
    decreases Reach(g.Rows(), g.Columns(), newPosition, Offset(move).value), 2
  {
    var newValue := g.GetAt(newPosition);
    if newValue == ']' {
      if move == '<' {
        var s := DoMove(g, newPosition.Add(Left), move);
        if s.None? {
          return false;
        }
        Swap(g, newPosition.Add(Left), newPosition);
      } else if move == '^' || move == 'v' {
        var s := DoMove(g, newPosition.Add(Left), move);
        if s.None? {
          return false;
        }
        s := DoMove(g, newPosition, move);
        if s.None? {
          return false;
        }
      }
    } else if newValue == '[' {
      if move == '>' {
        var s := DoMove(g, newPosition.Add(Right), move);
        if s.None? {
          return false;
        }
        Swap(g, newPosition.Add(Right), newPosition);
      } else if move == '^' || move == 'v' {
        var s := DoMove(g, newPosition.Add(Right), move);
        if s.None? {
          return false;
        }
        s := DoMove(g, newPosition, move);
        if s.None? {
          return false;
        }
      }
    }
    return true;
  }

  /** A wide move keeps the number of cells carrying each label. */
  lemma {:induction false} WideMoveKeepsCounts(b: Board, p: Cell2D, move: char, ch: char)
    requires Rectangular(b) && Offset(move).Some? && WideMove(b, p, move).Some?
    ensures Count(WideMove(b, p, move).value, ch) == Count(b, ch)
    decreases Reach(Height(b), Width(b), p, Offset(move).value), 1
  {
    var np := p.Add(Offset(move).value);
    PushBoxKeepsCounts(b, np, move, ch);
    SwapKeepsCounts(PushBox(b, np, move).value, p, np, ch);
  }

  lemma {:induction false} PushBoxKeepsCounts(b: Board, np: Cell2D, move: char, ch: char)
    requires Rectangular(b) && Offset(move).Some? && InRange(b, np) && PushBox(b, np, move).Some?
    ensures Count(PushBox(b, np, move).value, ch) == Count(b, ch)
    decreases Reach(Height(b), Width(b), np, Offset(move).value), 2
  {
    var vertical := move == '^' || move == 'v';
    var other := if At(b, np) == ']' then np.Add(Left) else np.Add(Right);
    var horizontal := (At(b, np) == ']' && move == '<') || (At(b, np) == '[' && move == '>');
    if horizontal || ((At(b, np) == ']' || At(b, np) == '[') && vertical) {
      WideMoveKeepsCounts(b, other, move, ch);
      var b1 := WideMove(b, other, move).value;
      if horizontal {
        SwapKeepsCounts(b1, other, np, ch);
      } else {
        WideMoveKeepsCounts(b1, np, move, ch);
      }
    }
  }

  // ---------------------------------------------------------------------
  // The result: GPS coordinates

  /** `100 * y + x` for each of the first `n` cells of row `y` labelled `value`. */
  function RowGps(row: seq<char>, value: char, y: int, n: nat): int
    requires n <= |row|
  {
    if n == 0 then 0 else RowGps(row, value, y, n - 1) + (if row[n - 1] == value then 100 * y + n - 1 else 0)
  }

  /** The sum of `100 * y + x` over the cells of the first `n` rows labelled `value`. */
  function RowsGps(b: Board, value: char, n: nat): int
    requires n <= |b|
  {
    if n == 0 then 0 else RowsGps(b, value, n - 1) + RowGps(b[n - 1], value, n - 1, |b[n - 1]|)
  }

  /** The sum of the GPS coordinates `100 * y + x` of the cells labelled `value`. */
  function Gps(b: Board, value: char): int
  {
    RowsGps(b, value, |b|)
  }

  /** The GPS coordinate of a cell. */
  function Coordinate(c: Cell2D): int
  {
    100 * c.y + c.x
  }

  function Score(c: Cell2D, mark: char, value: char): int
  {
    if mark == value then Coordinate(c) else 0
  }

  lemma {:induction false} RowGpsUpdate(row: seq<char>, value: char, y: int, x: nat, v: char, n: nat)
    requires x < |row| && n <= |row|
    ensures RowGps(row[x := v], value, y, n) + (if x < n then Score(Cell2D(y, x), row[x], value) else 0)
         == RowGps(row, value, y, n) + (if x < n then Score(Cell2D(y, x), v, value) else 0)
  {
    if n > 0 {
      RowGpsUpdate(row, value, y, x, v, n - 1);
    }
  }

  lemma {:induction false} RowsGpsUpdate(b: Board, value: char, y: nat, row: seq<char>, n: nat)
    requires y < |b| && n <= |b| && |row| == |b[y]|
    ensures RowsGps(b[y := row], value, n) + (if y < n then RowGps(b[y], value, y, |row|) else 0)
         == RowsGps(b, value, n) + (if y < n then RowGps(row, value, y, |row|) else 0)
  {
    if n > 0 {
      RowsGpsUpdate(b, value, y, row, n - 1);
    }
  }

  /** Writing one cell takes its coordinate out of the sum or puts it in, as the labels say. */
  lemma GpsUpdate(b: Board, c: Cell2D, v: char, value: char)
    requires Rectangular(b) && InRange(b, c)
    ensures Gps(Update(b, c, v), value) + Score(c, At(b, c), value) == Gps(b, value) + Score(c, v, value)
  {
    var row := b[c.y];
    RowsGpsUpdate(b, value, c.y, row[c.x := v], |b|);
    RowGpsUpdate(row, value, c.y, c.x, v, |row|);
  }

  /**
   * Moving a box from `a` to the cell `c` raises the sum by the difference
   * of their coordinates: a box pushed one step up lowers it by 100.
   */
  lemma GpsSwap(b: Board, a: Cell2D, c: Cell2D, value: char)
    requires Rectangular(b) && InRange(b, a) && InRange(b, c)
    requires At(b, a) == value && At(b, c) != value
    ensures Gps(SwapCells(b, a, c), value) == Gps(b, value) + Coordinate(c) - Coordinate(a)
  {
    var b1 := Update(b, c, At(b, a));
    GpsUpdate(b, c, At(b, a), value);
    GpsUpdate(b1, a, At(b, c), value);
  }

  /** `CalculateResult`. */
  method CalculateResult(g: CharGrid, value: char) returns (result: int)
    ensures result == Gps(g.Snapshot(), value)
  {
    ghost var b := g.Snapshot();
    result := 0;
    for y := 0 to g.Rows()
      invariant result == RowsGps(b, value, y)
    {
      for x := 0 to g.Columns()
        invariant result == RowsGps(b, value, y) + RowGps(b[y], value, y, x)
      {
        if g.Get(y, x) == value {
          result := result + 100 * y + x;
        }
      }
    }
  }

  // ---------------------------------------------------------------------
  // The start position

  predicate IsRobot(c: char)
  {
    c == '@'
  }

  /** No listed cell comes before the first of a row-major sorted list. */
  lemma FirstIsLeast(cs: seq<Cell2D>, c: Cell2D)
    requires RowMajorSorted(cs) && |cs| > 0
    ensures c in cs ==> !RowMajorBefore(c, cs[0])
  {
    if c in cs {
      var i :| 0 <= i < |cs| && cs[i] == c;
    }
  }

  /** The first robot in row-major order, if the board has one. */
  ghost function FirstRobot(b: Board): (r: Option<Cell2D>)
    requires Rectangular(b)
    ensures r.Some? ==> InRange(b, r.value) && At(b, r.value) == '@'
    ensures r.Some? ==> forall c | InRange(b, c) && RowMajorBefore(c, r.value) :: At(b, c) != '@'
    ensures r.None? ==> forall c | InRange(b, c) :: At(b, c) != '@'
  {
    var robots := CellsWhere(b, IsRobot);
    if |robots| == 0 then None
    else
      assert robots[0] in robots;
      assert forall c | InRange(b, c) && RowMajorBefore(c, robots[0]) :: At(b, c) != '@' by {
        forall c | InRange(b, c) && RowMajorBefore(c, robots[0]) ensures At(b, c) != '@' {
          FirstIsLeast(robots, c);
        }
      }
      Some(robots[0])
  }

  /** `GetStartPosition`: `None` when there is no robot (the source throws). */
  method GetStartPosition(g: CharGrid) returns (r: Option<Cell2D>)
    ensures r == FirstRobot(g.Snapshot())
  {
    ghost var b := g.Snapshot();
    for y := 0 to g.Rows()
      invariant forall c | InRange(b, c) && c.y < y :: At(b, c) != '@'
    {
      for x := 0 to g.Columns()
        invariant forall c | InRange(b, c) && c.y < y :: At(b, c) != '@'
        invariant forall c | InRange(b, c) && c.y == y && c.x < x :: At(b, c) != '@'
      {
        if g.Get(y, x) == '@' {
          assert FirstRobot(b) == Some(Cell2D(y, x));
          return Some(Cell2D(y, x));
        }
      }
    }
    return None;
  }

  // ---------------------------------------------------------------------
  // Parsing

  /** `IndexOf("\n\n")` from position `i`: the first blank-line delimiter, or -1. */
  function IndexOfBlankLine(s: string, i: nat): (r: int)
    requires i <= |s|
    ensures r == -1 || (i <= r && r + 2 <= |s| && s[r] == '\n' && s[r + 1] == '\n')
    ensures forall k | i <= k && k + 1 < (if r == -1 then |s| else r + 1) :: !(s[k] == '\n' && s[k + 1] == '\n')
    decreases |s| - i
  {
    if i + 2 > |s| then -1
    else if s[i] == '\n' && s[i + 1] == '\n' then i
    else IndexOfBlankLine(s, i + 1)
  }

  /** `String.Replace` of a one-character pattern `c` by `t`. */
  function ReplaceChar(s: string, c: char, t: string): (r: string)
    ensures c !in s ==> r == s
    ensures c !in t ==> c !in r
  {
    if |s| == 0 then "" else (if s[0] == c then t else [s[0]]) + ReplaceChar(s[1..], c, t)
  }

  lemma {:induction false} ReplaceCharAppend(a: string, b: string, c: char, t: string)
    ensures ReplaceChar(a + b, c, t) == ReplaceChar(a, c, t) + ReplaceChar(b, c, t)
  {
    if |a| == 0 {
      assert a + b == b;
    } else {
      assert (a + b)[1..] == a[1..] + b;
      ReplaceCharAppend(a[1..], b, c, t);
    }
  }

  /** The widening chain of `Parse`, applied in the source's order. */
  function ReplaceChain(data: string): string
  {
    ReplaceChar(ReplaceChar(ReplaceChar(ReplaceChar(data, '#', "##"), 'O', "[]"), '.', ".."), '@', "@.")
  }

  /** What one tile of the map becomes on the wide map. */
  function WidenCell(ch: char): string
  {
    match ch
    case '#' => "##"
    case 'O' => "[]"
    case '.' => ".."
    case '@' => "@."
    case _ => [ch]
  }

  /** Every tile replaced by its wide form, left to right. */
  function Widen(s: string): string
  {
    if |s| == 0 then "" else WidenCell(s[0]) + Widen(s[1..])
  }

  lemma ChainOne(ch: char)
    ensures ReplaceChain([ch]) == WidenCell(ch)
  {
  }

  /**
   * The chain of replacements widens each tile independently: no
   * replacement produces a character a later one rewrites, except the
   * `'.'` that `"@."` adds, which comes last.
   */
  lemma {:induction false} ReplaceChainWidens(s: string)
    ensures ReplaceChain(s) == Widen(s)
  {
    if |s| > 0 {
      var h, rest := [s[0]], s[1..];
      assert s == h + rest;
      ReplaceChainWidens(rest);
      var r1h, r1 := ReplaceChar(h, '#', "##"), ReplaceChar(rest, '#', "##");
      var r2h, r2 := ReplaceChar(r1h, 'O', "[]"), ReplaceChar(r1, 'O', "[]");
      var r3h, r3 := ReplaceChar(r2h, '.', ".."), ReplaceChar(r2, '.', "..");
      ReplaceCharAppend(h, rest, '#', "##");
      ReplaceCharAppend(r1h, r1, 'O', "[]");
      ReplaceCharAppend(r2h, r2, '.', "..");
      ReplaceCharAppend(r3h, r3, '@', "@.");
      ChainOne(s[0]);
    }
  }

  /** On a map made of the four tiles, each tile becomes the two cells at twice its column. */
  lemma {:induction false} WidenDoubles(s: string)
    requires forall i | 0 <= i < |s| :: s[i] in "#O.@"
    ensures |Widen(s)| == 2 * |s|
    ensures forall i | 0 <= i < |s| :: Widen(s)[2 * i..2 * i + 2] == WidenCell(s[i])
  {
    if |s| > 0 {
      WidenDoubles(s[1..]);
      var w := Widen(s);
      assert w == WidenCell(s[0]) + Widen(s[1..]);
      forall i | 0 <= i < |s| ensures w[2 * i..2 * i + 2] == WidenCell(s[i]) {
        if i > 0 {
          assert w[2 * i..2 * i + 2] == Widen(s[1..])[2 * (i - 1)..2 * (i - 1) + 2];
          assert s[1..][i - 1] == s[i];
        }
      }
    }
  }

  /** `Parse` before the grid is built: the map text (widened when asked) and the moves without line breaks. */
  function ParseText(input: string, doubleSize: bool): (r: Option<(string, string)>)
  {
    var index := IndexOfBlankLine(input, 0);
    if index < 0 then None
    else
      var data := input[..index];
      Some((if doubleSize then ReplaceChain(data) else data, ReplaceChar(input[index + 2..], '\n', "")))
  }

  /**
   * Writing a map without blank lines or a trailing newline, a blank line
   * and a line of moves, and parsing the text, gives back the map and the moves.
   */
  lemma ParseTextRoundTrip(data: string, moves: string)
    requires forall k | 0 <= k < |data| - 1 :: !(data[k] == '\n' && data[k + 1] == '\n')
    requires |data| > 0 ==> data[|data| - 1] != '\n'
    requires '\n' !in moves
    ensures ParseText(data + "\n\n" + moves, false) == Some((data, moves))
  {
    var s := data + "\n\n" + moves;
    var index := IndexOfBlankLine(s, 0);
    assert s[|data|] == '\n' && s[|data| + 1] == '\n';
    assert forall k | 0 <= k < |data| :: s[k] == data[k];
    assert index == |data|;
    assert s[..index] == data;
    assert s[index + 2..] == moves;
  }

  /** The board and the moves `Parse` returns; `None` where the source throws. */
  ghost function Parsed(input: string, doubleSize: bool): Option<(Board, string)>
  {
    match ParseText(input, doubleSize)
    case None => None
    case Some((data, moves)) =>
      var lines := Split(data, '\n');
      if Parser.NoShortRow(lines) then Some((LinesBoard(lines), moves)) else None
  }

  /** `Parse`. */
  method Parse(input: string, doubleSize: bool) returns (r: Option<(CharGrid, string)>)
    ensures r.Some? <==> Parsed(input, doubleSize).Some?
    ensures r.Some? ==> fresh(r.value.0.cells)
    ensures r.Some? ==> (r.value.0.Snapshot(), r.value.1) == Parsed(input, doubleSize).value
  {
    var text := ParseText(input, doubleSize);
    if text.None? {
      return None;
    }
    var (data, moves) := text.value;
    if !Parser.NoShortRow(Split(data, '\n')) {
      return None;
    }
    var grid := new CharGrid.FromString(data);
    grid.SnapshotAgrees(LinesBoard(Split(data, '\n')));
    return Some((grid, moves));
  }

  // ---------------------------------------------------------------------
  // Part one and part two

  /** The board and the robot after `TryMove` on each move in turn; `None` at a character that is not a move. */
  ghost function NarrowRun(b: Board, p: Cell2D, moves: string): (r: Option<(Board, Cell2D)>)
    requires Rectangular(b) && InRange(b, p)
    ensures r.Some? ==> Rectangular(r.value.0) && Height(r.value.0) == Height(b) && Width(r.value.0) == Width(b)
    ensures r.Some? ==> InRange(r.value.0, r.value.1)
  {
    if |moves| == 0 then Some((b, p))
    else
      match NarrowRun(b, p, moves[..|moves| - 1])
      case None => None
      case Some((b1, p1)) =>
        match Offset(moves[|moves| - 1])
        case None => None
        case Some(v) => Some(Push(b1, p1, v))
  }

  /** One turn of part two: `DoMove` when `CanMove` allows it; `None` where the source throws. */
  ghost function WideStep(b: Board, p: Cell2D, move: char): (r: Option<(Board, Cell2D)>)
    requires Rectangular(b)
    ensures r.Some? ==> Rectangular(r.value.0) && Height(r.value.0) == Height(b) && Width(r.value.0) == Width(b)
  {
    match Movable(b, p, move)
    case None => None
    case Some(can) =>
      if !can then Some((b, p))
      else
        match WideMove(b, p, move)
        case None => None
        case Some(b1) => Some((b1, p.Add(Offset(move).value)))
  }

  /** The board and the robot after a turn of part two on each move in turn. */
  ghost function WideRun(b: Board, p: Cell2D, moves: string): (r: Option<(Board, Cell2D)>)
    requires Rectangular(b)
    ensures r.Some? ==> Rectangular(r.value.0) && Height(r.value.0) == Height(b) && Width(r.value.0) == Width(b)
  {
    if |moves| == 0 then Some((b, p))
    else
      match WideRun(b, p, moves[..|moves| - 1])
      case None => None
      case Some((b1, p1)) => WideStep(b1, p1, moves[|moves| - 1])
  }

  /** A run that fails on a prefix of the moves fails on all of them. */
  lemma {:induction false} NarrowRunFails(b: Board, p: Cell2D, moves: string, i: nat)
    requires Rectangular(b) && InRange(b, p) && i <= |moves|
    requires NarrowRun(b, p, moves[..i]) == None
    ensures NarrowRun(b, p, moves) == None
    decreases |moves| - i
  {
    if i < |moves| {
      assert moves[..i + 1][..i] == moves[..i];
      NarrowRunFails(b, p, moves, i + 1);
    } else {
      assert moves[..i] == moves;
    }
  }

  lemma {:induction false} WideRunFails(b: Board, p: Cell2D, moves: string, i: nat)
    requires Rectangular(b) && i <= |moves|
    requires WideRun(b, p, moves[..i]) == None
    ensures WideRun(b, p, moves) == None
    decreases |moves| - i
  {
    if i < |moves| {
      assert moves[..i + 1][..i] == moves[..i];
      WideRunFails(b, p, moves, i + 1);
    } else {
      assert moves[..i] == moves;
    }
  }

  /** The answer to part one: the GPS sum of the boxes after all the moves. */
  ghost function Part1(input: string): Option<int>
  {
    match Parsed(input, false)
    case None => None
    case Some((b, moves)) =>
      match FirstRobot(b)
      case None => None
      case Some(start) =>
        match NarrowRun(b, start, moves)
        case None => None
        case Some((final, _)) => Some(Gps(final, 'O'))
  }

  /** The answer to part two: the GPS sum of the left halves of the boxes on the wide map. */
  ghost function Part2(input: string): Option<int>
  {
    match Parsed(input, true)
    case None => None
    case Some((b, moves)) =>
      match FirstRobot(b)
      case None => None
      case Some(start) =>
        match WideRun(b, start, moves)
        case None => None
        case Some((final, _)) => Some(Gps(final, '['))
  }

  /** `Solve1`. */
  method Solve1(input: string) returns (r: Option<int>)
    ensures r == Part1(input)
  {
    var parsed := Parse(input, false);
    if parsed.None? {
      return None;
    }
    var (grid, moves) := parsed.value;
    ghost var b := grid.Snapshot();
    var start := GetStartPosition(grid);
    if start.None? {
      return None;
    }
    var position := start.value;
    for i := 0 to |moves|
      invariant NarrowRun(b, start.value, moves[..i]) == Some((grid.Snapshot(), position))
    {
      assert moves[..i + 1][..i] == moves[..i];
      if Offset(moves[i]).None? {
        NarrowRunFails(b, start.value, moves, i + 1);
        return None;
      }
      position := TryMove(grid, position, moves[i]);
    }
    assert moves[..|moves|] == moves;
    var result := CalculateResult(grid, 'O');
    return Some(result);
  }

  /** The body of the loop of `Solve2`. */
  method Turn(grid: CharGrid, position: Cell2D, move: char) returns (r: Option<Cell2D>)
    modifies grid.cells
    ensures r.Some? <==> WideStep(old(grid.Snapshot()), position, move).Some?
    ensures r.Some? ==> (grid.Snapshot(), r.value) == WideStep(old(grid.Snapshot()), position, move).value
  {
    var can := CanMove(grid, position, move);
    if can.None? {
      return None;
    }
    if !can.value {
      return Some(position);
    }
    r := DoMove(grid, position, move);
  }

  /** `Solve2`. */
  method Solve2(input: string) returns (r: Option<int>)
    ensures r == Part2(input)
  {
    var parsed := Parse(input, true);
    if parsed.None? {
      return None;
    }
    var (grid, moves) := parsed.value;
    ghost var b := grid.Snapshot();
    var start := GetStartPosition(grid);
    if start.None? {
      return None;
    }
    var position := start.value;
    for i := 0 to |moves|
      invariant WideRun(b, start.value, moves[..i]) == Some((grid.Snapshot(), position))
    {
      assert moves[..i + 1][..i] == moves[..i];
      var next := Turn(grid, position, moves[i]);
      if next.None? {
        WideRunFails(b, start.value, moves, i + 1);
        return None;
      }
      position := next.value;
    }
    assert moves[..|moves|] == moves;
    var result := CalculateResult(grid, '[');
    return Some(result);
  }

  /** Over a whole run of part one, each label keeps its number of cells: as many boxes and walls at the end as at the start. */
  lemma {:induction false} NarrowRunKeepsCounts(b: Board, p: Cell2D, moves: string, ch: char)
    requires Rectangular(b) && InRange(b, p) && NarrowRun(b, p, moves).Some?
    ensures Count(NarrowRun(b, p, moves).value.0, ch) == Count(b, ch)
  {
    if |moves| > 0 {
      var init := moves[..|moves| - 1];
      NarrowRunKeepsCounts(b, p, init, ch);
      var (b1, p1) := NarrowRun(b, p, init).value;
      PushKeepsCounts(b1, p1, Offset(moves[|moves| - 1]).value, ch);
    }
  }

  /** Over a whole run of part two, each label keeps its number of cells. */
  lemma {:induction false} WideRunKeepsCounts(b: Board, p: Cell2D, moves: string, ch: char)
    requires Rectangular(b) && WideRun(b, p, moves).Some?
    ensures Count(WideRun(b, p, moves).value.0, ch) == Count(b, ch)
  {
    if |moves| > 0 {
      var init := moves[..|moves| - 1];
      WideRunKeepsCounts(b, p, init, ch);
      var (b1, p1) := WideRun(b, p, init).value;
      if Movable(b1, p1, moves[|moves| - 1]) == Some(true) {
        WideMoveKeepsCounts(b1, p1, moves[|moves| - 1], ch);
      }
    }
  }
}

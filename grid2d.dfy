/**
 * Model of Common/Grid2D.cs: cells, vectors and a rectangular grid of
 * characters. The generic `Grid2D<T>` is specialised to `char`, the only
 * instantiation the modelled code uses. `Board` is the value view of a grid
 * (row-major `seq<seq<char>>`); `CharGrid` is the mutable object over a
 * two-dimensional array.
 */
module Grid2D {
  import opened Wrappers
  import opened Strings
  import Parser

  datatype Vector2D = Vector2D(y: int, x: int) {
    /** One of the four unit moves. */
    predicate IsDirection()
    {
      this == Vector2D(-1, 0) || this == Vector2D(0, 1) || this == Vector2D(1, 0) || this == Vector2D(0, -1)
    }
  }

  datatype Cell2D = Cell2D(y: int, x: int) {
    /** The cell displaced by `v`. */
    function Add(v: Vector2D): (c: Cell2D)
      ensures c.y - y == v.y && c.x - x == v.x
    {
      Cell2D(y + v.y, x + v.x)
    }
  }

  /** A cell carrying a value, as used by the cell-list constructor. */
  datatype LabeledCell<T> = LabeledCell(y: int, x: int, value: T) {
    function Add(v: Vector2D): (c: LabeledCell<T>)
      ensures c.y - y == v.y && c.x - x == v.x && c.value == value
    {
      LabeledCell(y + v.y, x + v.x, value)
    }
  }

  const Up := Vector2D(-1, 0)
  const Right := Vector2D(0, 1)
  const Down := Vector2D(1, 0)
  const Left := Vector2D(0, -1)

  const Directions: seq<Vector2D> := [Up, Right, Down, Left]

  lemma DirectionsAreTheUnitMoves(d: Vector2D)
    ensures d in Directions <==> d.IsDirection()
  {
  }

  /** The vector leading from `from` to `to`. */
  function Calculate(from: Cell2D, to: Cell2D): (v: Vector2D)
    ensures from.Add(v) == to
  {
    Vector2D(to.y - from.y, to.x - from.x)
  }

  lemma CalculateInvertsAdd(from: Cell2D, v: Vector2D)
    ensures Calculate(from, from.Add(v)) == v
  {
  }

  // ---------------------------------------------------------------------
  // Value view of a grid

  type Board = seq<seq<char>>

  function Height(b: Board): nat { |b| }

  function Width(b: Board): nat { if |b| == 0 then 0 else |b[0]| }

  predicate Rectangular(b: Board)
  {
    forall y | 0 <= y < |b| :: |b[y]| == Width(b)
  }

  predicate InRange(b: Board, c: Cell2D)
  {
    0 <= c.y < Height(b) && 0 <= c.x < Width(b)
  }

  /** The board the string constructor builds from `lines`: as many rows as lines, as wide as the first. */
  function LinesBoard(lines: seq<string>): (b: Board)
    requires |lines| >= 1 && Parser.NoShortRow(lines)
    ensures Rectangular(b) && Height(b) == |lines| && Width(b) == |lines[0]|
    ensures forall y, x | 0 <= y < |lines| && 0 <= x < |lines[0]| :: b[y][x] == lines[y][x]
  {
    seq(|lines|, y requires 0 <= y < |lines| => lines[y][..|lines[0]|])
  }

  /**
   * The board of the grid the string constructor builds from `input`:
   * `None` where a line shorter than the first makes it throw.
   */
  function TextBoard(input: string): (r: Option<Board>)
    ensures r.Some? <==> Parser.NoShortRow(Split(input, '\n'))
    ensures r.Some? ==> Rectangular(r.value) && Height(r.value) == |Split(input, '\n')| && Width(r.value) == |Split(input, '\n')[0]|
    ensures r.Some? ==> forall y, x | 0 <= y < Height(r.value) && 0 <= x < Width(r.value) ::
      r.value[y][x] == Split(input, '\n')[y][x]
  {
    var lines := Split(input, '\n');
    if Parser.NoShortRow(lines) then Some(LinesBoard(lines)) else None
  }

  function At(b: Board, c: Cell2D): char
    requires Rectangular(b) && InRange(b, c)
  {
    b[c.y][c.x]
  }

  /** The board with cell `c` replaced by `v`. */
  function Update(b: Board, c: Cell2D, v: char): (r: Board)
    requires Rectangular(b) && InRange(b, c)
    ensures Rectangular(r) && Height(r) == Height(b) && Width(r) == Width(b)
    ensures At(r, c) == v
    ensures forall d | InRange(b, d) && d != c :: At(r, d) == At(b, d)
  {
    b[c.y := b[c.y][c.x := v]]
  }

  /** The board with every cell equal to `d`. */
  function Filled(rows: nat, columns: nat, d: char): (b: Board)
    ensures Rectangular(b) && Height(b) == rows && (rows > 0 ==> Width(b) == columns)
    ensures forall c | InRange(b, c) :: At(b, c) == d
  {
    seq(rows, _ => seq(columns, _ => d))
  }

  /** `a` comes strictly before `c` in row-major order. */
  predicate RowMajorBefore(a: Cell2D, c: Cell2D)
  {
    a.y < c.y || (a.y == c.y && a.x < c.x)
  }

  predicate RowMajorSorted(cs: seq<Cell2D>)
  {
    forall i, j | 0 <= i < j < |cs| :: RowMajorBefore(cs[i], cs[j])
  }

  /** Row-major list of the cells whose label satisfies `p`. */
  function CellsWhere(b: Board, p: char -> bool): (cs: seq<Cell2D>)
    requires Rectangular(b)
    ensures forall c :: c in cs <==> InRange(b, c) && p(At(b, c))
    ensures RowMajorSorted(cs)
  {
    CellsWhereFrom(b, p, 0)
  }

  function CellsWhereFrom(b: Board, p: char -> bool, y: nat): (cs: seq<Cell2D>)
    requires Rectangular(b) && y <= Height(b)
    ensures forall c :: c in cs <==> InRange(b, c) && c.y >= y && p(At(b, c))
    ensures RowMajorSorted(cs)
    decreases Height(b) - y
  {
    if y == Height(b) then []
    else
      var row := RowCellsWhere(b, p, y, 0);
      var rest := CellsWhereFrom(b, p, y + 1);
      assert forall i, j | 0 <= i < |row| && 0 <= j < |rest| :: RowMajorBefore(row[i], rest[j]) by {
        forall i, j | 0 <= i < |row| && 0 <= j < |rest| ensures RowMajorBefore(row[i], rest[j]) {
          assert row[i] in row && rest[j] in rest;
        }
      }
      row + rest
  }

  function RowCellsWhere(b: Board, p: char -> bool, y: nat, x: nat): (cs: seq<Cell2D>)
    requires Rectangular(b) && y < Height(b) && x <= Width(b)
    ensures forall c :: c in cs <==> InRange(b, c) && c.y == y && c.x >= x && p(At(b, c))
    ensures RowMajorSorted(cs)
    decreases Width(b) - x
  {
    if x == Width(b) then []
    else
      var rest := RowCellsWhere(b, p, y, x + 1);
      assert forall j | 0 <= j < |rest| :: rest[j].y == y && rest[j].x > x by {
        forall j | 0 <= j < |rest| ensures rest[j].y == y && rest[j].x > x {
          assert rest[j] in rest;
        }
      }
      (if p(b[y][x]) then [Cell2D(y, x)] else []) + rest
  }

  /** Row-major enumeration of every cell, as `GetEnumerator` yields it. */
  function Entries(b: Board): (es: seq<(int, int, char)>)
    requires Rectangular(b)
  {
    EntriesFrom(b, 0)
  }

  function EntriesFrom(b: Board, y: nat): (es: seq<(int, int, char)>)
    requires Rectangular(b) && y <= Height(b)
    decreases Height(b) - y
  {
    if y == Height(b) then [] else RowEntries(b, y) + EntriesFrom(b, y + 1)
  }

  function RowEntries(b: Board, y: nat): (es: seq<(int, int, char)>)
    requires Rectangular(b) && y < Height(b)
    ensures |es| == Width(b)
    ensures forall x | 0 <= x < Width(b) :: es[x] == (y, x, b[y][x])
  {
    seq(Width(b), x requires 0 <= x < Width(b) => (y, x, b[y][x]))
  }

  /** `n * w`, spelled as repeated addition so the proofs stay linear. */
  function RowOffset(n: nat, w: nat): (k: nat)
    ensures k == n * w
  {
    if n == 0 then 0 else ShiftRow(n - 1, w); w + RowOffset(n - 1, w)
  }

  lemma ShiftRow(y: int, k: int)
    ensures (y + 1) * k == k + y * k
  {
  }

  /**
   * The enumeration has `Rows * Columns` entries and yields cell (y, x) at
   * position `y * Columns + x`: every cell exactly once, in row-major order.
   */
  lemma EntriesRowMajor(b: Board, y: nat, x: nat)
    requires Rectangular(b) && y < Height(b) && x < Width(b)
    ensures |Entries(b)| == Height(b) * Width(b)
    ensures y * Width(b) + x < |Entries(b)|
    ensures Entries(b)[y * Width(b) + x] == (y, x, b[y][x])
  {
    EntriesFromAt(b, 0, y, x);
    assert RowOffset(y - 0, Width(b)) == y * Width(b);
  }

  lemma {:induction false} EntriesFromAt(b: Board, y0: nat, y: nat, x: nat)
    requires Rectangular(b) && y0 <= y < Height(b) && x < Width(b)
    ensures |EntriesFrom(b, y0)| == RowOffset(Height(b) - y0, Width(b))
    ensures RowOffset(y - y0, Width(b)) + x < |EntriesFrom(b, y0)|
    ensures EntriesFrom(b, y0)[RowOffset(y - y0, Width(b)) + x] == (y, x, b[y][x])
    decreases y - y0
  {
    EntriesLength(b, y0);
    if y0 < y {
      EntriesFromAt(b, y0 + 1, y, x);
      assert RowOffset(y - y0, Width(b)) == Width(b) + RowOffset(y - (y0 + 1), Width(b));
    }
  }

  lemma {:induction false} EntriesLength(b: Board, y0: nat)
    requires Rectangular(b) && y0 <= Height(b)
    ensures |EntriesFrom(b, y0)| == RowOffset(Height(b) - y0, Width(b))
    decreases Height(b) - y0
  {
    if y0 < Height(b) {
      EntriesLength(b, y0 + 1);
      assert RowOffset(Height(b) - y0, Width(b)) == Width(b) + RowOffset(Height(b) - (y0 + 1), Width(b));
    }
  }

  function RenderedRows(b: Board, d: char): (rs: seq<string>)
    ensures |rs| == |b|
    ensures forall y | 0 <= y < |b| :: rs[y] == RenderRow(b[y], d)
  {
    seq(|b|, y requires 0 <= y < |b| => RenderRow(b[y], d))
  }

  /** The text `Plot` renders: rows joined by newlines, `'\0'` shown as `d`. */
  function PlotText(b: Board, d: char): string
  {
    Join(RenderedRows(b, d), '\n')
  }

  function RenderRow(row: seq<char>, d: char): (s: string)
    ensures |s| == |row|
    ensures forall x | 0 <= x < |row| :: s[x] == (if row[x] == '\0' then d else row[x])
  {
    if |row| == 0 then [] else RenderRow(row[..|row| - 1], d) + [if row[|row| - 1] == '\0' then d else row[|row| - 1]]
  }

  /**
   * Splitting `Plot`'s output at newlines gives back `Rows` lines of
   * `Columns` characters each, cell (y, x) rendered as itself or, when it
   * holds the default `'\0'`, as `d`; so there is no trailing newline.
   */
  lemma PlotTextLines(b: Board, d: char)
    requires Rectangular(b) && |b| >= 1
    requires d != '\n' && forall y, x | 0 <= y < |b| && 0 <= x < Width(b) :: b[y][x] != '\n'
    ensures |Split(PlotText(b, d), '\n')| == Height(b)
    ensures forall y | 0 <= y < Height(b) :: |Split(PlotText(b, d), '\n')[y]| == Width(b)
    ensures forall y, x | 0 <= y < Height(b) && 0 <= x < Width(b) ::
              Split(PlotText(b, d), '\n')[y][x] == (if b[y][x] == '\0' then d else b[y][x])
  {
    var rs := RenderedRows(b, d);
    forall y | 0 <= y < |rs| ensures '\n' !in rs[y] {
      assert forall x | 0 <= x < |rs[y]| :: rs[y][x] != '\n';
    }
    SplitJoin(rs, '\n');
  }

  /** The value that the cell-list constructor leaves in cell (y, x). */
  function LastWritten(cells: seq<LabeledCell<char>>, y: int, x: int): char
  {
    if |cells| == 0 then '\0'
    else
      var last := cells[|cells| - 1];
      if last.y == y && last.x == x then last.value else LastWritten(cells[..|cells| - 1], y, x)
  }

  /** The last entry listed for a cell decides its value. */
  lemma {:induction false} LaterEntryWins(cells: seq<LabeledCell<char>>, i: nat)
    requires i < |cells|
    requires forall j | i < j < |cells| :: cells[j].y != cells[i].y || cells[j].x != cells[i].x
    ensures LastWritten(cells, cells[i].y, cells[i].x) == cells[i].value
    decreases |cells|
  {
    if i < |cells| - 1 {
      var init := cells[..|cells| - 1];
      assert forall j | i < j < |init| :: init[j] == cells[j];
      LaterEntryWins(init, i);
    }
  }

  /** A cell that is not listed keeps the default `'\0'`. */
  lemma {:induction false} UnlistedStaysDefault(cells: seq<LabeledCell<char>>, y: int, x: int)
    requires forall j | 0 <= j < |cells| :: cells[j].y != y || cells[j].x != x
    ensures LastWritten(cells, y, x) == '\0'
  {
    if |cells| > 0 {
      UnlistedStaysDefault(cells[..|cells| - 1], y, x);
    }
  }

  // ---------------------------------------------------------------------
  // The mutable grid object

  class CharGrid {
    const cells: array2<char>

    function Rows(): nat { cells.Length0 }

    function Columns(): nat { cells.Length1 }

    /** The contents of the grid as a value. */
    ghost function Snapshot(): (b: Board)
      reads cells
      ensures |b| == Rows() && Rectangular(b)
      ensures Rows() > 0 ==> Width(b) == Columns()
      ensures forall y, x | 0 <= y < Rows() && 0 <= x < Columns() :: b[y][x] == cells[y, x]
    {
      seq(cells.Length0, y reads cells requires 0 <= y < cells.Length0 =>
        seq(cells.Length1, x reads cells requires 0 <= x < cells.Length1 => cells[y, x]))
    }

    /**
     * Models the string constructor: the grid `Utils.ParseMatrix` builds
     * from the lines of `input`, which must have no row shorter than the first.
     */
    constructor FromString(input: string)
      requires Parser.NoShortRow(Split(input, '\n'))
      ensures fresh(cells)
      ensures Rows() == |Split(input, '\n')| && Columns() == |Split(input, '\n')[0]|
      ensures forall y, x | 0 <= y < Rows() && 0 <= x < Columns() :: cells[y, x] == Split(input, '\n')[y][x]
    {
      var m := Parser.ParseMatrix(input);
      cells := m.value;
    }

    /** Models `Grid2D(rows, columns, cells)`: later entries win, others stay `'\0'`. */
    constructor FromCells(rows: nat, columns: nat, list: seq<LabeledCell<char>>)
      requires forall i | 0 <= i < |list| :: 0 <= list[i].y < rows && 0 <= list[i].x < columns
      ensures fresh(cells) && Rows() == rows && Columns() == columns
      ensures forall y, x | 0 <= y < rows && 0 <= x < columns :: cells[y, x] == LastWritten(list, y, x)
    {
      var a := new char[rows, columns]((_, _) => '\0');
      var i := 0;
      while i < |list|
        invariant 0 <= i <= |list|
        invariant forall y, x | 0 <= y < rows && 0 <= x < columns :: a[y, x] == LastWritten(list[..i], y, x)
      {
        a[list[i].y, list[i].x] := list[i].value;
        assert list[..i + 1][..i] == list[..i];
        i := i + 1;
      }
      assert list[..|list|] == list;
      cells := a;
    }

    /** Models `Grid2D(rows, columns, defaultValue)`. */
    constructor Filled(rows: nat, columns: nat, defaultValue: char)
      ensures fresh(cells) && Rows() == rows && Columns() == columns
      ensures forall y, x | 0 <= y < rows && 0 <= x < columns :: cells[y, x] == defaultValue
    {
      var a := new char[rows, columns];
      for y := 0 to rows
        invariant forall y', x | 0 <= y' < y && 0 <= x < columns :: a[y', x] == defaultValue
      {
        for x := 0 to columns
          invariant forall y', x' | 0 <= y' < y && 0 <= x' < columns :: a[y', x'] == defaultValue
          invariant forall x' | 0 <= x' < x :: a[y, x'] == defaultValue
        {
          a[y, x] := defaultValue;
        }
      }
      cells := a;
    }

    function Get(y: int, x: int): (v: char)
      reads cells
      requires 0 <= y < Rows() && 0 <= x < Columns()
      ensures v == Snapshot()[y][x]
    {
      cells[y, x]
    }

    function GetAt(c: Cell2D): (v: char)
      reads cells
      requires IsInRange(c)
      ensures v == At(Snapshot(), c)
    {
      cells[c.y, c.x]
    }

    method Set(y: int, x: int, v: char)
      requires 0 <= y < Rows() && 0 <= x < Columns()
      modifies cells
      ensures Snapshot() == Update(old(Snapshot()), Cell2D(y, x), v)
    {
      cells[y, x] := v;
      SnapshotAgrees(Update(old(Snapshot()), Cell2D(y, x), v));
    }

    method SetAt(c: Cell2D, v: char)
      requires IsInRange(c)
      modifies cells
      ensures Snapshot() == Update(old(Snapshot()), c, v)
    {
      Set(c.y, c.x, v);
    }

    /** Two boards that agree with the array cell by cell are the snapshot. */
    lemma SnapshotAgrees(b: Board)
      requires |b| == Rows() && Rectangular(b) && (Rows() > 0 ==> Width(b) == Columns())
      requires forall y, x | 0 <= y < Rows() && 0 <= x < Columns() :: b[y][x] == cells[y, x]
      ensures Snapshot() == b
    {
      var s := Snapshot();
      forall y | 0 <= y < Rows() ensures s[y] == b[y] { }
    }

    predicate IsInRange(c: Cell2D)
      ensures IsInRange(c) <==> 0 <= c.y < Rows() && 0 <= c.x < Columns()
    {
      c.y >= 0 && c.y < Rows() && c.x >= 0 && c.x < Columns()
    }

    /** Models `Plot`. */
    method Plot(defaultValue: char) returns (s: string)
      ensures s == PlotText(Snapshot(), defaultValue)
    {
      ghost var rs := RenderedRows(Snapshot(), defaultValue);
      s := [];
      var y := 0;
      while y < Rows()
        invariant 0 <= y <= Rows()
        invariant y == 0 ==> s == []
        invariant 0 < y ==> s == Join(rs[..y], '\n') + (if y < Rows() then "\n" else "")
      {
        var line := PlotRow(y, defaultValue);
        assert rs[..y + 1] == rs[..y] + [line];
        if y > 0 {
          JoinSnoc(rs[..y], line, '\n');
        }
        s := s + line;
        if y != Rows() - 1 {
          s := s + "\n";
        }
        y := y + 1;
      }
      assert rs[..Rows()] == rs;
    }

    /** The inner loop of `Plot`: row `y`, with `'\0'` shown as `defaultValue`. */
    method PlotRow(y: nat, defaultValue: char) returns (line: string)
      requires y < Rows()
      ensures line == RenderRow(Snapshot()[y], defaultValue)
    {
      ghost var row := Snapshot()[y];
      line := [];
      for x := 0 to Columns()
        invariant line == RenderRow(row[..x], defaultValue)
      {
        assert row[..x + 1][..x] == row[..x];
        if cells[y, x] == '\0' {
          line := line + [defaultValue];
        } else {
          line := line + [cells[y, x]];
        }
      }
      assert row[..Columns()] == row;
    }

    /** Models `GetEnumerator`: every `(y, x, value)` once, row-major. */
    method Enumerate() returns (es: seq<(int, int, char)>)
      ensures es == Entries(Snapshot())
    {
      ghost var b := Snapshot();
      es := [];
      for y := 0 to Rows()
        invariant es + EntriesFrom(b, y) == Entries(b)
      {
        var row := EnumerateRow(y);
        assert EntriesFrom(b, y) == row + EntriesFrom(b, y + 1);
        es := es + row;
      }
    }

    /** The inner loop of `GetEnumerator`: the entries of row `y`, left to right. */
    method EnumerateRow(y: nat) returns (row: seq<(int, int, char)>)
      requires y < Rows()
      ensures row == RowEntries(Snapshot(), y)
    {
      ghost var b := Snapshot();
      row := [];
      for x := 0 to Columns()
        invariant |row| == x
        invariant forall x' | 0 <= x' < x :: row[x'] == (y, x', b[y][x'])
      {
        row := row + [(y, x, cells[y, x])];
      }
    }
  }
}

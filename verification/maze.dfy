/** maze.py: a rectangular grid of cells, the moves a search may take
    through it, marking and clearing a found path, drawing the grid, and the
    Manhattan-distance heuristic. */
module Mazes {
  import opened Wrappers
  import opened GenericSearch
  import opened Collections

  /** `Cell`, an enumeration whose values are one-character strings. */
  datatype Cell = Empty | Blocked | Start | Goal | PathCell {
    function Char(): char {
      match this
      case Empty => ' '
      case Blocked => 'X'
      case Start => 'S'
      case Goal => 'G'
      case PathCell => '*'
    }
  }

  /** `MazeLocation`, a named (row, column) pair. */
  datatype MazeLocation = MazeLocation(row: int, column: int)

  function Abs(x: int): nat {
    if x < 0 then -x else x
  }

  /** The number of unit moves along rows and columns between two
      locations. */
  function Distance(a: MazeLocation, b: MazeLocation): nat {
    Abs(a.row - b.row) + Abs(a.column - b.column)
  }

  /** The four locations one move away, in the order `sucessors` tries
      them. */
  function Neighbours(ml: MazeLocation): seq<MazeLocation> {
    [MazeLocation(ml.row + 1, ml.column), MazeLocation(ml.row - 1, ml.column),
     MazeLocation(ml.row, ml.column - 1), MazeLocation(ml.row, ml.column + 1)]
  }

  /** Exactly the four neighbours lie at distance one. */
  lemma {:induction false} UnitDistance(a: MazeLocation)
    ensures forall b :: Distance(a, b) == 1 <==> b in Neighbours(a)
  {
    forall b ensures Distance(a, b) == 1 <==> b in Neighbours(a) {
      if Distance(a, b) == 1 {
        if b.row == a.row {
          assert b == Neighbours(a)[2] || b == Neighbours(a)[3];
        } else {
          assert b == Neighbours(a)[0] || b == Neighbours(a)[1];
        }
      }
    }
  }

  /** A `rows` by `columns` grid. */
  ghost predicate Rectangular(grid: seq<seq<Cell>>, rows: nat, columns: nat) {
    |grid| == rows && forall r :: 0 <= r < rows ==> |grid[r]| == columns
  }

  /** The grid with one cell overwritten. */
  function SetCell(grid: seq<seq<Cell>>, at: MazeLocation, c: Cell): seq<seq<Cell>>
    requires 0 <= at.row < |grid| && 0 <= at.column < |grid[at.row]|
  {
    grid[at.row := grid[at.row][at.column := c]]
  }

  /** `Maze`: its size, its start and goal, and the grid of cells. */
  datatype Maze = Maze(rows: nat, columns: nat, start: MazeLocation, goal: MazeLocation,
                       grid: seq<seq<Cell>>) {

    predicate InBounds(ml: MazeLocation) {
      0 <= ml.row < rows && 0 <= ml.column < columns
    }

    /** The grid has the stated size and the start and goal lie on it. */
    ghost predicate WellFormed() {
      Rectangular(grid, rows, columns) && InBounds(start) && InBounds(goal)
    }

    function At(ml: MazeLocation): Cell
      requires WellFormed() && InBounds(ml)
    {
      grid[ml.row][ml.column]
    }

    /** The goal cell shows `GOAL`, and the start cell `START` unless it is
        also the goal: the state the constructor, `mark` and `clear` leave. */
    ghost predicate Placed()
      requires WellFormed()
    {
      At(goal) == Goal && (start != goal ==> At(start) == Start)
    }

    /** `goal_test` */
    predicate GoalTest(ml: MazeLocation) {
      ml == goal
    }

    /** A single move of the search: onto an adjacent, in-bounds, unblocked
        cell. */
    ghost predicate IsMove(from: MazeLocation, to: MazeLocation)
      requires WellFormed()
    {
      InBounds(to) && At(to) != Blocked && Distance(from, to) == 1
    }

    /** The order in which `sucessors` tries the four directions: row + 1,
        row - 1, column - 1, column + 1. */
    function DirectionRank(from: MazeLocation, to: MazeLocation): int {
      if to == MazeLocation(from.row + 1, from.column) then 0
      else if to == MazeLocation(from.row - 1, from.column) then 1
      else if to == MazeLocation(from.row, from.column - 1) then 2
      else 3
    }

    /** `sucessors`: exactly the moves out of `ml`, at most four of them,
        listed in direction order. */
    function Successors(ml: MazeLocation): (r: seq<MazeLocation>)
      requires WellFormed() && InBounds(ml)
      ensures |r| <= 4
      ensures forall x :: x in r <==> IsMove(ml, x)
      ensures forall i, j :: 0 <= i < j < |r| ==> DirectionRank(ml, r[i]) < DirectionRank(ml, r[j])
    {
      UnitDistance(ml);
      var n := Neighbours(ml);
      var down, up, left, right := n[0], n[1], n[2], n[3];
      (if ml.row + 1 < rows && grid[ml.row + 1][ml.column] != Blocked then [down] else [])
      + (if ml.row - 1 >= 0 && grid[ml.row - 1][ml.column] != Blocked then [up] else [])
      + (if ml.column - 1 >= 0 && grid[ml.row][ml.column - 1] != Blocked then [left] else [])
      + (if ml.column + 1 < columns && grid[ml.row][ml.column + 1] != Blocked then [right] else [])
    }

    /** `sucessors` as the search engine receives it: a function of every
        location. Off the grid it is never called by a search that starts
        on the grid; the model answers with no moves there. */
    function Moves(): MazeLocation -> seq<MazeLocation>
      requires WellFormed()
    {
      ml => if InBounds(ml) then Successors(ml) else []
    }

    /** Paints every location of `path`, in order, with `c`. */
    function Paint(g: seq<seq<Cell>>, path: seq<MazeLocation>, c: Cell): (p: seq<seq<Cell>>)
      requires Rectangular(g, rows, columns)
      requires forall x :: x in path ==> InBounds(x)
      ensures Rectangular(p, rows, columns)
      ensures forall r, k :: 0 <= r < rows && 0 <= k < columns ==>
        p[r][k] == if MazeLocation(r, k) in path then c else g[r][k]
      decreases |path|
    {
      if |path| == 0 then g
      else
        var front, last := path[..|path| - 1], path[|path| - 1];
        assert last in path && forall x :: x in front ==> x in path;
        var p := Paint(g, front, c);
        assert InBounds(last);
        assert Rectangular(p, rows, columns);
        assert |p| == rows;
        assert |p[last.row]| == columns;
        SetCell(p, last, c)
    }

    /** Writes `START` and then `GOAL` back, as `mark` and `clear` finish. */
    function Restore(g: seq<seq<Cell>>): seq<seq<Cell>>
      requires WellFormed() && Rectangular(g, rows, columns)
    {
      SetCell(SetCell(g, start, Start), goal, Goal)
    }

    /** `mark`: every path cell shows `PATH`, then the start and goal cells
        are restored; no other cell changes. */
    function Mark(path: seq<MazeLocation>): (m: Maze)
      requires WellFormed()
      requires forall x :: x in path ==> InBounds(x)
      ensures m.rows == rows && m.columns == columns && m.start == start && m.goal == goal
      ensures m.WellFormed() && m.Placed()
      ensures forall r, k :: 0 <= r < rows && 0 <= k < columns ==>
        m.grid[r][k] == ShownAfter(MazeLocation(r, k), path, PathCell)
    {
      this.(grid := Restore(Paint(grid, path, PathCell)))
    }

    /** `clear`: as `mark`, with `EMPTY` in place of `PATH`. */
    function Clear(path: seq<MazeLocation>): (m: Maze)
      requires WellFormed()
      requires forall x :: x in path ==> InBounds(x)
      ensures m.rows == rows && m.columns == columns && m.start == start && m.goal == goal
      ensures m.WellFormed() && m.Placed()
      ensures forall r, k :: 0 <= r < rows && 0 <= k < columns ==>
        m.grid[r][k] == ShownAfter(MazeLocation(r, k), path, Empty)
    {
      this.(grid := Restore(Paint(grid, path, Empty)))
    }

    /** What a cell shows after painting `path` with `c` and restoring the
        start and goal. */
    ghost function ShownAfter(ml: MazeLocation, path: seq<MazeLocation>, c: Cell): Cell
      requires WellFormed() && InBounds(ml)
    {
      if ml == goal then Goal
      else if ml == start then Start
      else if ml in path then c
      else At(ml)
    }

    /** `__str__`, line by line: a border of `=`, one line per grid row
        framed by `=`, and a closing border. */
    function Lines(): (ls: seq<string>)
      requires WellFormed()
      ensures |ls| == rows + 2
      ensures forall i :: 0 <= i < |ls| ==> |ls[i]| == columns + 2
      ensures forall j :: 0 <= j < columns + 2 ==> ls[0][j] == '=' && ls[rows + 1][j] == '='
      ensures forall i :: 1 <= i <= rows ==> ls[i][0] == '=' && ls[i][columns + 1] == '='
      ensures forall i, j :: 1 <= i <= rows && 1 <= j <= columns ==> ls[i][j] == grid[i - 1][j - 1].Char()
    {
      var border := Repeat('=', columns + 2);
      [border] + seq(rows, r requires 0 <= r < rows => "=" + Chars(grid[r]) + "=") + [border]
    }

    /** `__str__`: every line followed by a newline. */
    function ToString(): string
      requires WellFormed()
    {
      Render(Lines())
    }
  }

  function Repeat(c: char, n: nat): (s: string)
    ensures |s| == n && forall i :: 0 <= i < n ==> s[i] == c
  {
    seq(n, _ => c)
  }

  /** The characters of a row of cells. */
  function Chars(row: seq<Cell>): (s: string)
    ensures |s| == |row| && forall i :: 0 <= i < |row| ==> s[i] == row[i].Char()
  {
    seq(|row|, i requires 0 <= i < |row| => row[i].Char())
  }

  /** Lines joined with a newline after each. */
  function Render(lines: seq<string>): string {
    if |lines| == 0 then "" else lines[0] + "\n" + Render(lines[1..])
  }

  /** Cuts text into the lines that each end with a newline; text after the
      last newline, if any, is a last line of its own. */
  function SplitLines(s: string): seq<string>
    decreases |s|
  {
    match IndexOf(s, '\n')
    case None => if |s| == 0 then [] else [s]
    case Some(k) => [s[..k]] + SplitLines(s[k + 1..])
  }

  /** Cutting rendered text at its newlines gives back the lines, as long as
      none of them holds a newline itself. */
  lemma {:induction false} SplitRenderedLines(lines: seq<string>)
    requires forall i :: 0 <= i < |lines| ==> '\n' !in lines[i]
    ensures SplitLines(Render(lines)) == lines
    decreases |lines|
  {
    if |lines| > 0 {
      var a, b := lines[0], Render(lines[1..]);
      var s := Render(lines);
      assert s == a + ['\n'] + b;
      assert s[|a|] == '\n';
      assert IndexOf(s, '\n') == Some(|a|);
      assert s[..|a|] == a && s[|a| + 1..] == b;
      SplitRenderedLines(lines[1..]);
    }
  }

  /** `__str__` draws `rows + 2` lines, each `columns + 2` characters wide:
      the `=` border around the grid's cells. */
  lemma {:induction false} ToStringLayout(m: Maze)
    requires m.WellFormed()
    ensures SplitLines(m.ToString()) == m.Lines()
  {
    var ls := m.Lines();
    forall i | 0 <= i < |ls| ensures '\n' !in ls[i] {
      forall j | 0 <= j < |ls[i]| ensures ls[i][j] != '\n' {
        if 1 <= i <= m.rows && 1 <= j <= m.columns {
          var c := m.grid[i - 1][j - 1];
          assert ls[i][j] == c.Char();
        }
      }
    }
    SplitRenderedLines(ls);
  }

  /** Two grids of the same shape that agree on every cell are equal. */
  lemma {:induction false} GridsEqual(a: seq<seq<Cell>>, b: seq<seq<Cell>>, rows: nat, columns: nat)
    requires Rectangular(a, rows, columns) && Rectangular(b, rows, columns)
    requires forall r, k :: 0 <= r < rows && 0 <= k < columns ==> a[r][k] == b[r][k]
    ensures a == b
  {
    forall r | 0 <= r < rows ensures a[r] == b[r] {
    }
  }

  /** `clear` after `mark` gives what `clear` alone gives: the marks are
      wiped out. */
  lemma {:induction false} ClearUndoesMark(m: Maze, path: seq<MazeLocation>)
    requires m.WellFormed()
    requires forall x :: x in path ==> m.InBounds(x)
    ensures m.Mark(path).Clear(path) == m.Clear(path)
  {
    var a := m.Mark(path).Clear(path);
    var b := m.Clear(path);
    GridsEqual(a.grid, b.grid, m.rows, m.columns);
  }

  /** The round trip the demo performs: when the maze is as built and the
      path runs over empty cells apart from the start and the goal,
      marking then clearing the path gives back the same maze. */
  lemma {:induction false} MarkThenClearRestores(m: Maze, path: seq<MazeLocation>)
    requires m.WellFormed() && m.Placed()
    requires forall x :: x in path ==> m.InBounds(x)
    requires forall i :: 0 <= i < |path| && path[i] != m.start && path[i] != m.goal ==>
      m.At(path[i]) == Empty
    ensures m.Mark(path).Clear(path) == m
  {
    var a := m.Mark(path).Clear(path);
    forall r, k | 0 <= r < m.rows && 0 <= k < m.columns ensures a.grid[r][k] == m.grid[r][k] {
      var ml := MazeLocation(r, k);
      if ml != m.start && ml != m.goal && ml in path {
        var i :| 0 <= i < |path| && path[i] == ml;
      }
    }
    GridsEqual(a.grid, m.grid, m.rows, m.columns);
  }

  /** The constructor, with the random fill passed in: `blocked(r, c)`
      says whether the draw for cell (r, c) fell below the sparseness.
      Placing the start and goal raises `IndexError` when either is off the
      grid; otherwise every other cell is blocked exactly when its draw says
      so, and the goal is written last. */
  function NewMaze(rows: nat, columns: nat, start: MazeLocation, goal: MazeLocation,
                   blocked: (nat, nat) -> bool): (r: Result<Maze>)
    ensures r.Failure? <==> !(0 <= start.row < rows && 0 <= start.column < columns &&
                              0 <= goal.row < rows && 0 <= goal.column < columns)
    ensures r.Failure? ==> r.error == IndexError
    ensures r.Success? ==> && r.value.WellFormed() && r.value.Placed()
                           && r.value.rows == rows && r.value.columns == columns
                           && r.value.start == start && r.value.goal == goal
    ensures r.Success? ==> forall i, k ::
      (0 <= i < rows && 0 <= k < columns && MazeLocation(i, k) != start && MazeLocation(i, k) != goal) ==>
        r.value.grid[i][k] == if blocked(i, k) then Blocked else Empty
  {
    var filled := seq(rows, i requires 0 <= i < rows =>
      seq(columns, k requires 0 <= k < columns => if blocked(i, k) then Blocked else Empty));
    var m := Maze(rows, columns, start, goal, filled);
    if !(m.InBounds(start) && m.InBounds(goal)) then Failure(IndexError)
    else Success(m.(grid := m.Restore(filled)))
  }

  /** `manhattan_distance(goal)`: zero exactly at the goal. */
  function ManhattanDistance(goal: MazeLocation): (h: MazeLocation -> int)
    ensures forall ml :: h(ml) == Distance(ml, goal)
    ensures forall ml :: h(ml) >= 0 && (h(ml) == 0 <==> ml == goal)
  {
    ml => Distance(ml, goal)
  }

  /** Along any move the Manhattan distance to the goal changes by exactly
      one: `sucessors` only returns locations at distance one. */
  lemma {:induction false} ManhattanStep(goal: MazeLocation, ml: MazeLocation, next: MazeLocation)
    requires Distance(ml, next) == 1
    ensures Distance(next, goal) == Distance(ml, goal) + 1 || Distance(next, goal) == Distance(ml, goal) - 1
  {
    UnitDistance(ml);
    assert next in Neighbours(ml);
  }

  /** A walk without its first state is a walk from its second. */
  lemma {:induction false} WalkTail<T>(initial: T, successors: T -> seq<T>, p: seq<T>)
    requires IsPathFrom(initial, successors, p) && |p| > 1
    ensures IsPathFrom(p[1], successors, p[1..])
  {
    var tail := p[1..];
    forall i | 0 <= i < |tail| - 1 ensures tail[i + 1] in successors(tail[i]) {
      assert tail[i + 1] == p[i + 2] && tail[i] == p[i + 1];
    }
  }

  /** The Manhattan distance never overestimates: any walk of moves from
      `p[0]` that ends at the goal takes at least that many steps. */
  lemma {:induction false} ManhattanAdmissible(m: Maze, p: seq<MazeLocation>)
    requires m.WellFormed() && |p| > 0 && m.InBounds(p[0])
    requires IsPathFrom(p[0], m.Moves(), p)
    ensures Distance(p[0], p[|p| - 1]) <= |p| - 1
    decreases |p|
  {
    if |p| > 1 {
      assert p[1] in m.Moves()(p[0]);
      assert m.InBounds(p[1]) && m.IsMove(p[0], p[1]);
      WalkTail(p[0], m.Moves(), p);
      ManhattanAdmissible(m, p[1..]);
    }
  }
}

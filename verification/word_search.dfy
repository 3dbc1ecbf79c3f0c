/** word_search.py: hiding words in a grid of letters. Each word's domain
    is the list of runs of grid cells it could occupy; the constraint
    forbids two words, or two letters of one word, from sharing a cell. */
module WordSearch {
  import opened Wrappers
  import opened Collections

  /** `GridLocation`: a row and a column. */
  datatype GridLocation = GridLocation(row: int, column: int)

  /** `Grid`: rows of letters. Only the number of rows and the length of the
      first row are read. */
  type Grid = seq<seq<char>>

  /** The four directions a word may run in. */
  datatype Direction = Across | DownRight | Down | DownLeft

  /** The position of a direction in the order `generete_domain` tries them. */
  function Rank(d: Direction): nat {
    match d
    case Across => 0
    case DownRight => 1
    case Down => 2
    case DownLeft => 3
  }

  /** The cell `i` steps from (`row`, `col`) in direction `d`, as the
      comprehensions of `generete_domain` write it with `r = row + i` and
      `c = col + i`. */
  function Cell(row: int, col: int, d: Direction, i: int): GridLocation {
    match d
    case Across => GridLocation(row, col + i)
    case DownRight => GridLocation(row + i, col + i)
    case Down => GridLocation(row + i, col)
    case DownLeft => GridLocation(row + i, col - i)
  }

  /** `k` cells from (`row`, `col`) running in direction `d`. */
  function Run(row: int, col: int, d: Direction, k: nat): seq<GridLocation> {
    seq(k, i => Cell(row, col, d, i))
  }

  /** Every cell of `p` lies inside a grid of `height` rows and `width`
      columns. */
  predicate Inside(p: seq<GridLocation>, height: int, width: int) {
    forall i :: 0 <= i < |p| ==> 0 <= p[i].row < height && 0 <= p[i].column < width
  }

  /** The domain as the source writes it, and the domain it evidently means. */
  datatype Layout = AsWritten | Corrected

  /** The number of cells in a run for a word of `length` letters: the
      inclusive ranges `range(col, col + length + 1)` as written, one cell
      per letter once corrected. */
  function CellCount(layout: Layout, length: nat): nat {
    if layout == AsWritten then length + 1 else length
  }

  /** Whether a run in direction `d` may start at (`row`, `col`). As written
      the down-left guard is `col - length >= 0`; corrected, a run of
      `length` cells needs only `col - length + 1 >= 0`. */
  predicate Fits(layout: Layout, d: Direction, row: int, col: int, height: int, width: int, length: nat) {
    match d
    case Across => col + length <= width
    case DownRight => col + length <= width && row + length <= height
    case Down => row + length <= height
    case DownLeft =>
      row + length <= height &&
      if layout == AsWritten then col - length >= 0 else col - length + 1 >= 0
  }

  /** The directions tried at one start cell, following the nested guards of
      `generete_domain`: across then down-right under the width guard, down
      then down-left under the height guard. */
  function FittingDirections(layout: Layout, row: int, col: int, height: int, width: int, length: nat): (ds: seq<Direction>)
    ensures |ds| <= 4
    ensures forall d :: d in ds <==> Fits(layout, d, row, col, height, width, length)
    ensures forall i, j :: 0 <= i < j < |ds| ==> Rank(ds[i]) < Rank(ds[j])
  {
    var downLeft := if layout == AsWritten then col - length >= 0 else col - length + 1 >= 0;
    (if col + length <= width then [Across] + (if row + length <= height then [DownRight] else []) else [])
    + (if row + length <= height then [Down] + (if downLeft then [DownLeft] else []) else [])
  }

  /** The runs appended for one start cell, in the order they are appended. */
  function PlacementsAt(layout: Layout, row: int, col: int, height: int, width: int, length: nat): seq<seq<GridLocation>> {
    var ds := FittingDirections(layout, row, col, height, width, length);
    seq(|ds|, i requires 0 <= i < |ds| => Run(row, col, ds[i], CellCount(layout, length)))
  }

  /** The runs appended for start cells `col..width-1` of one row. */
  function DomainRow(layout: Layout, row: int, col: int, height: int, width: int, length: nat): seq<seq<GridLocation>>
    decreases width - col
  {
    if col >= width then []
    else PlacementsAt(layout, row, col, height, width, length) + DomainRow(layout, row, col + 1, height, width, length)
  }

  /** The runs appended for rows `row..height-1`, row by row. */
  function DomainFrom(layout: Layout, row: int, height: int, width: int, length: nat): seq<seq<GridLocation>>
    decreases height - row
  {
    if row >= height then []
    else DomainRow(layout, row, 0, height, width, length) + DomainFrom(layout, row + 1, height, width, length)
  }

  /** A run that `DomainRow` holds: it starts in `row` at a column from
      `colFrom` on, and its direction fits there. */
  ghost predicate PlacedInRow(layout: Layout, p: seq<GridLocation>, row: int, colFrom: int, height: int, width: int, length: nat) {
    exists col, d :: colFrom <= col < width &&
      Fits(layout, d, row, col, height, width, length) && p == Run(row, col, d, CellCount(layout, length))
  }

  /** A run that `DomainFrom` holds: it starts in a row from `rowFrom` on,
      inside the grid, and its direction fits there. */
  ghost predicate PlacedFrom(layout: Layout, p: seq<GridLocation>, rowFrom: int, height: int, width: int, length: nat) {
    exists row, col, d :: rowFrom <= row < height && 0 <= col < width &&
      Fits(layout, d, row, col, height, width, length) && p == Run(row, col, d, CellCount(layout, length))
  }

  lemma {:induction false} PlacementsAtHolds(layout: Layout, p: seq<GridLocation>, row: int, col: int, height: int, width: int, length: nat)
    ensures p in PlacementsAt(layout, row, col, height, width, length) <==>
      exists d :: Fits(layout, d, row, col, height, width, length) && p == Run(row, col, d, CellCount(layout, length))
  {
    var ds := FittingDirections(layout, row, col, height, width, length);
    var ps := PlacementsAt(layout, row, col, height, width, length);
    var k := CellCount(layout, length);
    if p in ps {
      var i :| 0 <= i < |ps| && ps[i] == p;
      assert ds[i] in ds;
    }
    forall d | Fits(layout, d, row, col, height, width, length) ensures Run(row, col, d, k) in ps {
      var i :| 0 <= i < |ds| && ds[i] == d;
      assert ps[i] == Run(row, col, d, k);
    }
  }

  lemma {:induction false} DomainRowHolds(layout: Layout, p: seq<GridLocation>, row: int, col: int, height: int, width: int, length: nat)
    ensures p in DomainRow(layout, row, col, height, width, length) <==> PlacedInRow(layout, p, row, col, height, width, length)
    decreases width - col
  {
    if col < width {
      PlacementsAtHolds(layout, p, row, col, height, width, length);
      DomainRowHolds(layout, p, row, col + 1, height, width, length);
      var k := CellCount(layout, length);
      if PlacedInRow(layout, p, row, col, height, width, length) {
        var c, d :| col <= c < width && Fits(layout, d, row, c, height, width, length) && p == Run(row, c, d, k);
        if c > col {
          assert PlacedInRow(layout, p, row, col + 1, height, width, length);
        }
      }
    }
  }

  lemma {:induction false} DomainFromHolds(layout: Layout, p: seq<GridLocation>, row: int, height: int, width: int, length: nat)
    ensures p in DomainFrom(layout, row, height, width, length) <==> PlacedFrom(layout, p, row, height, width, length)
    decreases height - row
  {
    if row < height {
      DomainRowHolds(layout, p, row, 0, height, width, length);
      DomainFromHolds(layout, p, row + 1, height, width, length);
      var k := CellCount(layout, length);
      if PlacedFrom(layout, p, row, height, width, length) {
        var r, c, d :| row <= r < height && 0 <= c < width && Fits(layout, d, r, c, height, width, length) && p == Run(r, c, d, k);
        if r > row {
          assert PlacedFrom(layout, p, row + 1, height, width, length);
        } else {
          assert PlacedInRow(layout, p, row, 0, height, width, length);
        }
      }
    }
  }

  /** The domain holds exactly the runs that start inside the grid in a
      direction that fits there. */
  lemma {:induction false} DomainHolds(layout: Layout, height: int, width: int, length: nat)
    ensures forall p :: p in DomainFrom(layout, 0, height, width, length) <==> PlacedFrom(layout, p, 0, height, width, length)
  {
    forall p ensures p in DomainFrom(layout, 0, height, width, length) <==> PlacedFrom(layout, p, 0, height, width, length) {
      DomainFromHolds(layout, p, 0, height, width, length);
    }
  }

  /** `generete_domain`: every run of a word, start cell by start cell in
      row-major order. An empty grid has no first row, so `grid[0]`
      raises `IndexError`. */
  function GenerateDomain(word: string, grid: Grid): (r: Result<seq<seq<GridLocation>>>)
    ensures r.Failure? <==> |grid| == 0
    ensures r.Failure? ==> r.error == IndexError
    ensures r.Success? ==> forall p :: p in r.value <==> PlacedFrom(AsWritten, p, 0, |grid|, |grid[0]|, |word|)
  {
    if |grid| == 0 then Failure(IndexError)
    else
      DomainHolds(AsWritten, |grid|, |grid[0]|, |word|);
      Success(DomainFrom(AsWritten, 0, |grid|, |grid[0]|, |word|))
  }

  /** For a start cell inside the grid, the corrected guards admit a
      direction exactly when every cell of the run lies inside the grid. */
  lemma {:induction false} CorrectedFitsIffInside(d: Direction, row: int, col: int, height: int, width: int, length: nat)
    requires 0 <= row < height && 0 <= col < width
    ensures Fits(Corrected, d, row, col, height, width, length) <==> Inside(Run(row, col, d, length), height, width)
  {
    var p := Run(row, col, d, length);
    if length > 0 && Inside(p, height, width) {
      assert p[length - 1] == Cell(row, col, d, length - 1);
    }
  }

  /** A run of `length` cells lying inside the grid from a start cell
      inside it. */
  ghost predicate InGridRun(p: seq<GridLocation>, height: int, width: int, length: nat) {
    exists row, col, d :: 0 <= row < height && 0 <= col < width &&
      p == Run(row, col, d, length) && Inside(p, height, width)
  }

  lemma {:induction false} CorrectedPlacedIff(p: seq<GridLocation>, height: int, width: int, length: nat)
    ensures PlacedFrom(Corrected, p, 0, height, width, length) <==> InGridRun(p, height, width, length)
  {
    if PlacedFrom(Corrected, p, 0, height, width, length) {
      var row, col, d :| 0 <= row < height && 0 <= col < width &&
        Fits(Corrected, d, row, col, height, width, length) && p == Run(row, col, d, length);
      CorrectedFitsIffInside(d, row, col, height, width, length);
    }
    if InGridRun(p, height, width, length) {
      var row, col, d :| 0 <= row < height && 0 <= col < width &&
        p == Run(row, col, d, length) && Inside(p, height, width);
      CorrectedFitsIffInside(d, row, col, height, width, length);
    }
  }

  /** `generete_domain` as evidently intended: one cell per letter. The
      domain then holds exactly the runs of `len(word)` cells, in one of
      the four directions, that lie inside the grid. */
  function GenerateDomainCorrected(word: string, grid: Grid): (r: Result<seq<seq<GridLocation>>>)
    ensures r.Failure? <==> |grid| == 0
    ensures r.Failure? ==> r.error == IndexError
    ensures r.Success? ==> forall p :: p in r.value <==> InGridRun(p, |grid|, |grid[0]|, |word|)
  {
    if |grid| == 0 then Failure(IndexError)
    else
      var height, width, length := |grid|, |grid[0]|, |word|;
      DomainHolds(Corrected, height, width, length);
      assert forall p :: PlacedFrom(Corrected, p, 0, height, width, length) <==> InGridRun(p, height, width, length) by {
        forall p ensures PlacedFrom(Corrected, p, 0, height, width, length) <==> InGridRun(p, height, width, length) {
          CorrectedPlacedIff(p, height, width, length);
        }
      }
      Success(DomainFrom(Corrected, 0, height, width, length))
  }

  /** As written, every run has one cell more than the word has letters;
      the first `len(word)` cells lie inside the grid. */
  lemma {:induction false} AsWrittenOverhang(word: string, grid: Grid, p: seq<GridLocation>)
    requires GenerateDomain(word, grid).Success?
    requires p in GenerateDomain(word, grid).value
    ensures |p| == |word| + 1
    ensures Inside(p[..|word|], |grid|, |grid[0]|)
  {
    var height, width, length := |grid|, |grid[0]|, |word|;
    var row, col, d :| 0 <= row < height && 0 <= col < width &&
      Fits(AsWritten, d, row, col, height, width, length) && p == Run(row, col, d, length + 1);
  }

  /** The extra cell can fall outside the grid: a one-letter word in a
      one-cell grid is offered a run reaching column 1. */
  lemma {:induction false} AsWrittenLeavesGrid()
    ensures GenerateDomain("A", [['X']]).Success?
    ensures [GridLocation(0, 0), GridLocation(0, 1)] in GenerateDomain("A", [['X']]).value
    ensures !Inside([GridLocation(0, 0), GridLocation(0, 1)], 1, 1)
  {
    var p := [GridLocation(0, 0), GridLocation(0, 1)];
    assert Fits(AsWritten, Across, 0, 0, 1, 1, 1);
    assert p == Run(0, 0, Across, 2);
    assert PlacedFrom(AsWritten, p, 0, 1, 1, 1);
    assert !(0 <= p[1].column < 1);
  }

  /** No cell repeats across the placements of the assigned words: two
      different positions, in one word's run or in two words' runs, never
      hold the same cell. */
  ghost predicate Disjoint(a: map<string, seq<GridLocation>>, words: set<string>) {
    forall w1, w2, i, j ::
      (w1 in words && w2 in words && w1 in a && w2 in a &&
       0 <= i < |a[w1]| && 0 <= j < |a[w2]| && (w1 != w2 || i != j)) ==> a[w1][i] != a[w2][j]
  }

  /** `x` is a cell of the placement of one of `words`. */
  ghost predicate Covered(a: map<string, seq<GridLocation>>, words: set<string>, x: GridLocation) {
    exists w, i :: w in words && w in a && 0 <= i < |a[w]| && a[w][i] == x
  }

  /** Adding one more word's placement to the flattened list. */
  lemma {:induction false} AddPlacement(a: map<string, seq<GridLocation>>, done: set<string>, all: seq<GridLocation>, w: string)
    requires w in a && w !in done
    requires forall x :: x in all <==> Covered(a, done, x)
    requires NoDup(all) <==> Disjoint(a, done)
    ensures forall x :: x in all + a[w] <==> Covered(a, done + {w}, x)
    ensures NoDup(all + a[w]) <==> Disjoint(a, done + {w})
  {
    var p := a[w];
    var more := done + {w};
    forall x ensures x in all + p <==> Covered(a, more, x) {
      if x in p {
        var i :| 0 <= i < |p| && p[i] == x;
        assert Covered(a, more, x);
      }
      if Covered(a, more, x) {
        var v, i :| v in more && v in a && 0 <= i < |a[v]| && a[v][i] == x;
        if v != w {
          assert Covered(a, done, x);
        }
      }
    }
    NoDupAppend(all, p);
    if Disjoint(a, more) {
      assert Disjoint(a, done);
      forall i, j | 0 <= i < |all| && 0 <= j < |p| ensures all[i] != p[j] {
        assert all[i] in all;
        var v, k :| v in done && v in a && 0 <= k < |a[v]| && a[v][k] == all[i];
      }
    }
    if NoDup(all + p) {
      forall w1, w2, i, j |
        w1 in more && w2 in more && w1 in a && w2 in a &&
        0 <= i < |a[w1]| && 0 <= j < |a[w2]| && (w1 != w2 || i != j)
        ensures a[w1][i] != a[w2][j]
      {
        if w1 == w && w2 != w {
          assert Covered(a, done, a[w2][j]);
          assert a[w2][j] in all;
        } else if w1 != w && w2 == w {
          assert Covered(a, done, a[w1][i]);
          assert a[w1][i] in all;
        }
      }
    }
  }

  /** `WordSearchConstraint.satisfied`: flatten the placements of the
      assigned words, in the dictionary's iteration order (any order of its
      keys), and compare the number of distinct cells with the number of
      cells. */
  method Satisfied(a: map<string, seq<GridLocation>>) returns (ok: bool)
    ensures ok <==> Disjoint(a, a.Keys)
  {
    var all: seq<GridLocation> := [];
    var todo := a.Keys;
    ghost var done: set<string> := {};
    while todo != {}
      invariant todo + done == a.Keys && todo !! done
      invariant forall x :: x in all <==> Covered(a, done, x)
      invariant NoDup(all) <==> Disjoint(a, done)
      decreases |todo|
    {
      var w :| w in todo;
      AddPlacement(a, done, all, w);
      all := all + a[w];
      done := done + {w};
      todo := todo - {w};
    }
    ElementsCard(all);
    ok := |Elements(all)| == |all|;
  }

  /** No assignment, no overlap; and removing words keeps the remaining
      placements apart. */
  lemma {:induction false} RemovalKeepsSatisfied(a: map<string, seq<GridLocation>>, b: map<string, seq<GridLocation>>)
    requires forall w :: w in b ==> w in a && b[w] == a[w]
    requires Disjoint(a, a.Keys)
    ensures Disjoint(b, b.Keys)
    ensures Disjoint(map[], {})
  {
    forall w1, w2, i, j |
      w1 in b.Keys && w2 in b.Keys && w1 in b && w2 in b &&
      0 <= i < |b[w1]| && 0 <= j < |b[w2]| && (w1 != w2 || i != j)
      ensures b[w1][i] != b[w2][j]
    {
      assert b[w1] == a[w1] && b[w2] == a[w2];
    }
  }
}

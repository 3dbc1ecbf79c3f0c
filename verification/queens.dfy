/** queens.py: the eight-queens constraint. An assignment maps a column to
    the row of the queen placed in it; the constraint holds while no two
    placed queens attack each other. */
module Queens {

  function Abs(x: int): nat {
    if x < 0 then -x else x
  }

  /** Two queens attack each other when they share a row, or a diagonal:
      the row distance equals the column distance. */
  predicate Attacks(c1: int, r1: int, c2: int, r2: int) {
    r1 == r2 || Abs(r1 - r2) == Abs(c1 - c2)
  }

  /** No two assigned queens that `satisfied` compares attack each other.
      It compares each assigned column `c1` with the assigned columns above
      it up to the number of columns, `len(self.columns)`. */
  ghost predicate NoAttacks(columnCount: int, assignment: map<int, int>) {
    forall c1, c2 ::
      c1 in assignment && c2 in assignment && c1 < c2 <= columnCount ==>
        !Attacks(c1, assignment[c1], c2, assignment[c2])
  }

  /** `QueensConstraint.satisfied`: for every assigned queen, walk the
      columns to its right, skip the unassigned ones, and fail on a shared
      row or a shared diagonal. The dictionary's iteration order is any
      order of its keys. */
  method Satisfied(columns: seq<int>, assignment: map<int, int>) returns (ok: bool)
    ensures ok <==> NoAttacks(|columns|, assignment)
  {
    var n := |columns|;
    var todo := assignment.Keys;
    while todo != {}
      invariant todo <= assignment.Keys
      invariant forall c1, c2 ::
        c1 in assignment && c1 !in todo && c2 in assignment && c1 < c2 <= n ==>
          !Attacks(c1, assignment[c1], c2, assignment[c2])
      decreases |todo|
    {
      var c1 :| c1 in todo;
      var r1 := assignment[c1];
      var c2 := c1 + 1;
      while c2 <= n
        invariant c1 < c2
        invariant forall k :: k in assignment && c1 < k < c2 && k <= n ==> !Attacks(c1, r1, k, assignment[k])
        decreases n - c2
      {
        if c2 in assignment {
          var r2 := assignment[c2];
          if r1 == r2 {
            return false;
          }
          if Abs(r1 - r2) == Abs(c1 - c2) {
            return false;
          }
        }
        c2 := c2 + 1;
      }
      todo := todo - {c1};
    }
    return true;
  }

  /** Unassigned columns are skipped, so taking queens off the board keeps
      the constraint satisfied. */
  lemma {:induction false} RemovalKeepsSatisfied(columnCount: int, a: map<int, int>, b: map<int, int>)
    requires forall k :: k in b ==> k in a && b[k] == a[k]
    requires NoAttacks(columnCount, a)
    ensures NoAttacks(columnCount, b)
  {
    forall c1, c2 | c1 in b && c2 in b && c1 < c2 <= columnCount
      ensures !Attacks(c1, b[c1], c2, b[c2])
    {
      assert b[c1] == a[c1] && b[c2] == a[c2];
    }
  }

  /** When every assigned column is one of `1..len(columns)`, the constraint
      holds exactly when no two distinct assigned queens attack each other,
      whichever of the two is named first. */
  lemma {:induction false} OnBoardMeansPairwise(columnCount: int, a: map<int, int>)
    requires forall c :: c in a ==> 1 <= c <= columnCount
    ensures NoAttacks(columnCount, a) <==>
      forall c1, c2 :: c1 in a && c2 in a && c1 != c2 ==> !Attacks(c1, a[c1], c2, a[c2])
  {
    if NoAttacks(columnCount, a) {
      forall c1, c2 | c1 in a && c2 in a && c1 != c2 ensures !Attacks(c1, a[c1], c2, a[c2]) {
        if c2 < c1 {
          assert !Attacks(c2, a[c2], c1, a[c1]);
          assert Abs(a[c1] - a[c2]) == Abs(a[c2] - a[c1]);
          assert Abs(c1 - c2) == Abs(c2 - c1);
        }
      }
    }
  }

  /** The board of the demo: eight columns numbered from one. */
  const Columns: seq<int> := [1, 2, 3, 4, 5, 6, 7, 8]

  /** A placement of eight queens, one per column, in rows 1 to 8. */
  const EightQueens: map<int, int> := map[1 := 1, 2 := 5, 3 := 8, 4 := 6, 5 := 3, 6 := 7, 7 := 2, 8 := 4]

  /** The demo's search has a complete answer to find: eight queens, one per
      column, none attacking another. */
  lemma {:induction false} EightQueensSolved()
    ensures EightQueens.Keys == set c | c in Columns
    ensures NoAttacks(|Columns|, EightQueens)
  {
    forall c1, c2 | c1 in EightQueens && c2 in EightQueens && c1 < c2 <= |Columns|
      ensures !Attacks(c1, EightQueens[c1], c2, EightQueens[c2])
    {
      assert 1 <= c1 <= 8 && 1 <= c2 <= 8;
    }
  }
}

/** Steps one, two, three, four and six of the Hungarian method, each
    returning the solver's new state and the number of the step to run next,
    as the source's `ref int step` parameter does. */
module MunkresSteps {
  import opened MunkresDefs

  /** Subtracts from each row its smallest entry (step one); `rowMin` is what
      was subtracted from each row. */
  method StepOne(s: Solver) returns (s': Solver, step: int, ghost rowMin: seq<int>)
    requires WellFormed(s)
    ensures step == 2
    ensures s' == s.(C := s'.C) && WellFormed(s')
    ensures |rowMin| == s.n
    ensures forall r, c :: 0 <= r < s.n && 0 <= c < s.n ==> s'.C[r][c] == s.C[r][c] - rowMin[r]
    ensures NonNegative(s')
    ensures forall r :: 0 <= r < s.n ==> RowHasZero(s', r)
  {
    var C := s.C;
    rowMin := [];
    ghost var zeroAt: seq<int> := [];
    for r := 0 to s.n
      invariant |C| == s.n && |rowMin| == r && |zeroAt| == r
      invariant forall i :: 0 <= i < s.n ==> |C[i]| == s.n
      invariant forall i, c :: 0 <= i < r && 0 <= c < s.n ==> C[i][c] == s.C[i][c] - rowMin[i] >= 0
      invariant forall i :: 0 <= i < r ==> 0 <= zeroAt[i] < s.n && C[i][zeroAt[i]] == 0
      invariant forall i :: r <= i < s.n ==> C[i] == s.C[i]
    {
      var minInRow := C[r][0];
      ghost var at := 0;
      for c := 0 to s.n
        invariant 0 <= at < s.n && minInRow == C[r][at]
        invariant forall j :: 0 <= j < c ==> minInRow <= C[r][j]
      {
        if C[r][c] < minInRow {
          minInRow := C[r][c];
          at := c;
        }
      }
      var row := [];
      for c := 0 to s.n
        invariant |row| == c
        invariant forall j :: 0 <= j < c ==> row[j] == C[r][j] - minInRow
      {
        row := row + [C[r][c] - minInRow];
      }
      assert row[at] == 0;
      C := C[r := row];
      rowMin := rowMin + [minInRow];
      zeroAt := zeroAt + [at];
    }
    s' := s.(C := C);
    forall r | 0 <= r < s.n
      ensures RowHasZero(s', r)
    {
      var c := zeroAt[r];
      assert 0 <= c < s.n && s'.C[r][c] == 0;
    }
    step := 2;
  }

  /** Uncovers every row and column. */
  method ClearCovers(s: Solver) returns (s': Solver)
    requires WellFormed(s)
    ensures s' == s.(rowCover := s'.rowCover, colCover := s'.colCover)
    ensures WellFormed(s') && NoCovers(s')
  {
    var rowCover := s.rowCover;
    for r := 0 to s.n
      invariant |rowCover| == s.n && forall i :: 0 <= i < r ==> !rowCover[i]
    {
      rowCover := rowCover[r := false];
    }
    var colCover := s.colCover;
    for c := 0 to s.n
      invariant |colCover| == s.n && forall i :: 0 <= i < c ==> !colCover[i]
    {
      colCover := colCover[c := false];
    }
    s' := s.(rowCover := rowCover, colCover := colCover);
  }

  /** Scans the cells in row-major order and stars each zero whose row and
      column hold no star yet, using the covers to remember which do (step
      two). Every zero then shares a row or a column with a star. */
  method StepTwo(s: Solver) returns (s': Solver, step: int)
    requires Fresh(s)
    ensures step == 3
    ensures s'.n == s.n && s'.C == s.C && WellFormed(s')
    ensures NoCovers(s') && NoPrimes(s') && MarksOnZeros(s') && StarsIndependent(s')
    ensures forall r, c :: 0 <= r < s.n && 0 <= c < s.n && s.C[r][c] == 0
              ==> RowHasStar(s', r) || ColHasStar(s', c)
  {
    var t := s;
    for r := 0 to s.n
      invariant t.n == s.n && t.C == s.C && WellFormed(t)
      invariant NoPrimes(t) && MarksOnZeros(t) && StarsIndependent(t)
      invariant forall i :: 0 <= i < s.n ==> (t.rowCover[i] <==> RowHasStar(t, i))
      invariant forall j :: 0 <= j < s.n ==> (t.colCover[j] <==> ColHasStar(t, j))
      invariant forall i, j :: 0 <= i < r && 0 <= j < s.n && s.C[i][j] == 0
                  ==> RowHasStar(t, i) || ColHasStar(t, j)
    {
      t := StarRowZeros(s, t, r);
    }
    s' := ClearCovers(t);
    SameStarsLines(t, s');
    step := 3;
  }

  /** One row of step two: stars each zero of row r whose row and column
      hold no star yet. Afterwards every zero of the rows up to r shares a
      line with a star. */
  method StarRowZeros(s: Solver, t0: Solver, r: int) returns (t: Solver)
    requires WellFormed(s) && 0 <= r < s.n
    requires t0.n == s.n && t0.C == s.C && WellFormed(t0)
    requires NoPrimes(t0) && MarksOnZeros(t0) && StarsIndependent(t0)
    requires forall i :: 0 <= i < s.n ==> (t0.rowCover[i] <==> RowHasStar(t0, i))
    requires forall j :: 0 <= j < s.n ==> (t0.colCover[j] <==> ColHasStar(t0, j))
    requires forall i, j :: 0 <= i < r && 0 <= j < s.n && s.C[i][j] == 0
               ==> RowHasStar(t0, i) || ColHasStar(t0, j)
    ensures t.n == s.n && t.C == s.C && WellFormed(t)
    ensures NoPrimes(t) && MarksOnZeros(t) && StarsIndependent(t)
    ensures forall i :: 0 <= i < s.n ==> (t.rowCover[i] <==> RowHasStar(t, i))
    ensures forall j :: 0 <= j < s.n ==> (t.colCover[j] <==> ColHasStar(t, j))
    ensures forall i, j :: 0 <= i < r + 1 && 0 <= j < s.n && s.C[i][j] == 0
              ==> RowHasStar(t, i) || ColHasStar(t, j)
  {
    t := t0;
    for c := 0 to s.n
      invariant t.n == s.n && t.C == s.C && WellFormed(t)
      invariant NoPrimes(t) && MarksOnZeros(t) && StarsIndependent(t)
      invariant forall i :: 0 <= i < s.n ==> (t.rowCover[i] <==> RowHasStar(t, i))
      invariant forall j :: 0 <= j < s.n ==> (t.colCover[j] <==> ColHasStar(t, j))
      invariant forall i, j :: 0 <= i < r && 0 <= j < s.n && s.C[i][j] == 0
                  ==> RowHasStar(t, i) || ColHasStar(t, j)
      invariant forall j :: 0 <= j < c && s.C[r][j] == 0
                  ==> RowHasStar(t, r) || ColHasStar(t, j)
    {
      if t.C[r][c] == 0 && !t.rowCover[r] && !t.colCover[c] {
        t := StarCell(t, r, c);
      }
    }
  }

  /** Stars the zero at (r, c), whose row and column hold no star, and covers
      both. */
  method StarCell(t: Solver, r: int, c: int) returns (t': Solver)
    requires WellFormed(t) && NoPrimes(t) && MarksOnZeros(t) && StarsIndependent(t)
    requires 0 <= r < t.n && 0 <= c < t.n && t.C[r][c] == 0
    requires forall i :: 0 <= i < t.n ==> (t.rowCover[i] <==> RowHasStar(t, i))
    requires forall j :: 0 <= j < t.n ==> (t.colCover[j] <==> ColHasStar(t, j))
    requires !t.rowCover[r] && !t.colCover[c]
    ensures t'.n == t.n && t'.C == t.C && WellFormed(t')
    ensures NoPrimes(t') && MarksOnZeros(t') && StarsIndependent(t')
    ensures forall i :: 0 <= i < t.n ==> (t'.rowCover[i] <==> RowHasStar(t', i))
    ensures forall j :: 0 <= j < t.n ==> (t'.colCover[j] <==> ColHasStar(t', j))
    ensures t'.M[r][c] == Star
    ensures forall i :: 0 <= i < t.n && RowHasStar(t, i) ==> RowHasStar(t', i)
    ensures forall j :: 0 <= j < t.n && ColHasStar(t, j) ==> ColHasStar(t', j)
  {
    t' := t.(M := t.M[r := t.M[r][c := Star]],
             rowCover := t.rowCover[r := true],
             colCover := t.colCover[c := true]);
    StarCellRows(t, t', r, c);
    StarCellCols(t, t', r, c);
    StarCellMarks(t, t', r, c);
  }

  /** Starring (r, c) stars row r and no other new row. */
  lemma StarCellRows(t: Solver, t': Solver, r: int, c: int)
    requires WellFormed(t) && 0 <= r < t.n && 0 <= c < t.n
    requires forall i :: 0 <= i < t.n ==> (t.rowCover[i] <==> RowHasStar(t, i))
    requires t' == t.(M := t.M[r := t.M[r][c := Star]],
                      rowCover := t.rowCover[r := true],
                      colCover := t.colCover[c := true])
    ensures WellFormed(t')
    ensures forall i :: 0 <= i < t.n ==> (t'.rowCover[i] <==> RowHasStar(t', i))
    ensures forall i :: 0 <= i < t.n && RowHasStar(t, i) ==> RowHasStar(t', i)
  {
    forall i | 0 <= i < t.n
      ensures RowHasStar(t, i) ==> RowHasStar(t', i)
      ensures t'.rowCover[i] <==> RowHasStar(t', i)
    {
      if RowHasStar(t, i) {
        var j :| 0 <= j < t.n && t.M[i][j] == Star;
        assert t'.M[i][j] == Star;
      }
      if i == r {
        assert t'.M[r][c] == Star;
      } else if RowHasStar(t', i) {
        var j :| 0 <= j < t.n && t'.M[i][j] == Star;
        assert t.M[i][j] == Star;
      }
    }
  }

  /** Starring (r, c) stars column c and no other new column. */
  lemma StarCellCols(t: Solver, t': Solver, r: int, c: int)
    requires WellFormed(t) && 0 <= r < t.n && 0 <= c < t.n
    requires forall j :: 0 <= j < t.n ==> (t.colCover[j] <==> ColHasStar(t, j))
    requires t' == t.(M := t.M[r := t.M[r][c := Star]],
                      rowCover := t.rowCover[r := true],
                      colCover := t.colCover[c := true])
    ensures WellFormed(t')
    ensures forall j :: 0 <= j < t.n ==> (t'.colCover[j] <==> ColHasStar(t', j))
    ensures forall j :: 0 <= j < t.n && ColHasStar(t, j) ==> ColHasStar(t', j)
  {
    forall j | 0 <= j < t.n
      ensures ColHasStar(t, j) ==> ColHasStar(t', j)
      ensures t'.colCover[j] <==> ColHasStar(t', j)
    {
      if ColHasStar(t, j) {
        var i :| 0 <= i < t.n && t.M[i][j] == Star;
        assert t'.M[i][j] == Star;
      }
      if j == c {
        assert t'.M[r][c] == Star;
      } else if ColHasStar(t', j) {
        var i :| 0 <= i < t.n && t'.M[i][j] == Star;
        assert t.M[i][j] == Star;
      }
    }
  }

  /** A zero whose row and column hold no star can be starred without
      breaking independence. */
  lemma StarCellMarks(t: Solver, t': Solver, r: int, c: int)
    requires WellFormed(t) && NoPrimes(t) && MarksOnZeros(t) && StarsIndependent(t)
    requires 0 <= r < t.n && 0 <= c < t.n && t.C[r][c] == 0
    requires !RowHasStar(t, r) && !ColHasStar(t, c)
    requires t' == t.(M := t.M[r := t.M[r][c := Star]],
                      rowCover := t.rowCover[r := true],
                      colCover := t.colCover[c := true])
    ensures WellFormed(t') && NoPrimes(t') && MarksOnZeros(t') && StarsIndependent(t')
    ensures t'.M[r][c] == Star
  {
  }

  /** Covers every column holding a star and counts the covered columns
      (step three). When all n columns are covered the stars form a complete
      assignment and the next step is 7 (done); otherwise it is 4. */
  method StepThree(s: Solver) returns (s': Solver, step: int)
    requires WellFormed(s) && NoCovers(s)
    ensures s' == s.(colCover := s'.colCover) && WellFormed(s')
    ensures forall c :: 0 <= c < s.n ==> (s'.colCover[c] <==> ColHasStar(s, c))
    ensures step == 4 || step == 7
    ensures step == 7 <==> forall c :: 0 <= c < s.n ==> ColHasStar(s, c)
  {
    var colCover := s.colCover;
    for r := 0 to s.n
      invariant |colCover| == s.n
      invariant forall c :: 0 <= c < s.n ==>
                  (colCover[c] <==> exists i :: 0 <= i < r && s.M[i][c] == Star)
    {
      for c := 0 to s.n
        invariant |colCover| == s.n
        invariant forall j :: 0 <= j < s.n ==>
                    (colCover[j] <==> (exists i :: 0 <= i < r && s.M[i][j] == Star)
                                      || (j < c && s.M[r][j] == Star))
      {
        if s.M[r][c] == Star {
          colCover := colCover[c := true];
        }
      }
    }
    var colCount := 0;
    for c := 0 to s.n
      invariant colCount == CountTrue(colCover[..c])
    {
      assert colCover[..c + 1][..c] == colCover[..c];
      if colCover[c] {
        colCount := colCount + 1;
      }
    }
    assert colCover[..s.n] == colCover;
    CountTrueAll(colCover);
    s' := s.(colCover := colCover);
    if colCount >= s.n || colCount >= s.n {
      step := 7;
    } else {
      step := 4;
    }
  }

  /** After step three sends the run to step four, the facts step four relies
      on hold, with no row covered yet. */
  lemma StepThreeCovers(s: Solver, s': Solver, time: seq<nat>)
    requires StarsOnly(s) && s' == s.(colCover := s'.colCover) && WellFormed(s')
    requires forall c :: 0 <= c < s.n ==> (s'.colCover[c] <==> ColHasStar(s, c))
    requires exists c :: 0 <= c < s.n && !ColHasStar(s, c)
    requires |time| == s.n
    ensures CoverInv(s', time, 0)
    ensures CountTrue(s'.rowCover) == 0
  {
    forall c | 0 <= c < s.n
      ensures ColHasStar(s', c) == ColHasStar(s, c)
    {
    }
    forall r, c | 0 <= r < s.n && 0 <= c < s.n && s'.M[r][c] == Star
      ensures s'.rowCover[r] <==> !s'.colCover[c]
    {
      assert ColHasStar(s, c);
    }
    NoCoversCountZero(s'.rowCover);
  }

  lemma {:induction false} NoCoversCountZero(b: seq<bool>)
    requires forall i :: 0 <= i < |b| ==> !b[i]
    ensures CountTrue(b) == 0
  {
    if |b| > 0 {
      NoCoversCountZero(b[..|b| - 1]);
    }
  }
}

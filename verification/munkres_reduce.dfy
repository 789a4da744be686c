/** Step six of the Hungarian method: shifting the smallest uncovered value
    from the uncovered cells to the doubly covered ones. */
module MunkresReduce {
  import opened MunkresDefs

  /** While step four or six runs, some row and some column are uncovered:
      a starless column is never covered, and if every row were covered every
      row would hold a star, hence (by the pigeonhole principle) so would
      every column. */
  lemma UncoveredLinesExist(s: Solver, time: seq<nat>, T: nat)
    requires CoverInv(s, time, T)
    ensures exists r :: 0 <= r < s.n && !s.rowCover[r]
    ensures exists c :: 0 <= c < s.n && !s.colCover[c]
  {
    var c :| 0 <= c < s.n && !ColHasStar(s, c);
    assert !s.colCover[c];
    if forall r :: 0 <= r < s.n ==> s.rowCover[r] {
      assert forall r :: 0 <= r < s.n ==> RowHasStar(s, r);
      RowsStarredColsStarred(s);
      assert false;
    }
  }

  /** The smallest entry among cells whose row and column are both uncovered
      (find_smallest). */
  method FindSmallest(s: Solver) returns (minval: int)
    requires WellFormed(s)
    requires exists r :: 0 <= r < s.n && !s.rowCover[r]
    requires exists c :: 0 <= c < s.n && !s.colCover[c]
    ensures forall r, c :: 0 <= r < s.n && 0 <= c < s.n && !s.rowCover[r] && !s.colCover[c]
              ==> minval <= s.C[r][c]
    ensures exists r, c :: 0 <= r < s.n && 0 <= c < s.n && !s.rowCover[r] && !s.colCover[c]
              && s.C[r][c] == minval
  {
    var found := false;
    minval := 0;
    ghost var at := (0, 0);
    for r := 0 to s.n
      invariant found ==> (0 <= at.0 < s.n && 0 <= at.1 < s.n
                  && !s.rowCover[at.0] && !s.colCover[at.1] && s.C[at.0][at.1] == minval)
      invariant found <==> exists i, j :: 0 <= i < r && 0 <= j < s.n && !s.rowCover[i] && !s.colCover[j]
      invariant forall i, j :: 0 <= i < r && 0 <= j < s.n && !s.rowCover[i] && !s.colCover[j]
                  ==> minval <= s.C[i][j]
    {
      for c := 0 to s.n
        invariant found ==> (0 <= at.0 < s.n && 0 <= at.1 < s.n
                    && !s.rowCover[at.0] && !s.colCover[at.1] && s.C[at.0][at.1] == minval)
        invariant found <==> (exists i, j :: 0 <= i < r && 0 <= j < s.n && !s.rowCover[i] && !s.colCover[j])
                             || (exists j :: 0 <= j < c && !s.rowCover[r] && !s.colCover[j])
        invariant forall i, j :: 0 <= i < r && 0 <= j < s.n && !s.rowCover[i] && !s.colCover[j]
                    ==> minval <= s.C[i][j]
        invariant forall j :: 0 <= j < c && !s.rowCover[r] && !s.colCover[j] ==> minval <= s.C[r][j]
      {
        if !s.rowCover[r] && !s.colCover[c] {
          if !found || minval > s.C[r][c] {
            minval := s.C[r][c];
            at := (r, c);
            found := true;
          }
        }
      }
    }
    var r0 :| 0 <= r0 < s.n && !s.rowCover[r0];
    var c0 :| 0 <= c0 < s.n && !s.colCover[c0];
    assert found;
  }

  /** Adds the smallest uncovered value to every covered row and subtracts it
      from every uncovered column (step six). Stars, primes and covers stay as
      they are; the costs stay non-negative and an uncovered zero appears. */
  method StepSix(s: Solver, ghost time: seq<nat>, ghost T: nat) returns (s': Solver, step: int, minval: int)
    requires CoverInv(s, time, T)
    ensures step == 4
    ensures s' == s.(C := s'.C) && WellFormed(s')
    ensures minval >= 0
    ensures forall r, c :: 0 <= r < s.n && 0 <= c < s.n && !s.rowCover[r] && !s.colCover[c]
              ==> minval <= s.C[r][c]
    ensures forall r, c :: 0 <= r < s.n && 0 <= c < s.n ==>
              s'.C[r][c] == s.C[r][c] + (if s.rowCover[r] then minval else 0)
                                      - (if s.colCover[c] then 0 else minval)
    ensures CoverInv(s', time, T)
    ensures !NoUncoveredZero(s')
  {
    UncoveredLinesExist(s, time, T);
    minval := FindSmallest(s);
    s' := ShiftMin(s, minval);
    step := 4;
    ghost var r0, c0 :| 0 <= r0 < s.n && 0 <= c0 < s.n && !s.rowCover[r0] && !s.colCover[c0]
                        && s.C[r0][c0] == minval;
    ReduceKeepsCover(s, s', minval, time, T, r0, c0);
  }

  /** The update loop of step six for a given value m. */
  method ShiftMin(s: Solver, minval: int) returns (s': Solver)
    requires WellFormed(s)
    ensures s' == s.(C := s'.C) && WellFormed(s')
    ensures forall r, c :: 0 <= r < s.n && 0 <= c < s.n ==>
              s'.C[r][c] == s.C[r][c] + (if s.rowCover[r] then minval else 0)
                                      - (if s.colCover[c] then 0 else minval)
  {
    var C := s.C;
    for r := 0 to s.n
      invariant |C| == s.n && forall i :: 0 <= i < s.n ==> |C[i]| == s.n
      invariant forall i, c :: 0 <= i < r && 0 <= c < s.n ==>
                  C[i][c] == s.C[i][c] + (if s.rowCover[i] then minval else 0)
                                       - (if s.colCover[c] then 0 else minval)
      invariant forall i :: r <= i < s.n ==> C[i] == s.C[i]
    {
      var row := C[r];
      for c := 0 to s.n
        invariant |row| == s.n
        invariant forall j :: 0 <= j < c ==>
                    row[j] == s.C[r][j] + (if s.rowCover[r] then minval else 0)
                                        - (if s.colCover[j] then 0 else minval)
        invariant forall j :: c <= j < s.n ==> row[j] == s.C[r][j]
      {
        if s.rowCover[r] {
          row := row[c := row[c] + minval];
        }
        if !s.colCover[c] {
          row := row[c := row[c] - minval];
        }
      }
      C := C[r := row];
    }
    s' := s.(C := C);
  }

  /** The shift of step six keeps every invariant of step four and leaves a
      zero where the smallest uncovered value was. */
  lemma ReduceKeepsCover(s: Solver, s': Solver, m: int, time: seq<nat>, T: nat, r0: int, c0: int)
    requires CoverInv(s, time, T) && s' == s.(C := s'.C) && WellFormed(s')
    requires forall r, c :: 0 <= r < s.n && 0 <= c < s.n && !s.rowCover[r] && !s.colCover[c]
               ==> m <= s.C[r][c]
    requires 0 <= r0 < s.n && 0 <= c0 < s.n && !s.rowCover[r0] && !s.colCover[c0] && s.C[r0][c0] == m
    requires forall r, c :: 0 <= r < s.n && 0 <= c < s.n ==>
               s'.C[r][c] == s.C[r][c] + (if s.rowCover[r] then m else 0)
                                       - (if s.colCover[c] then 0 else m)
    ensures m >= 0
    ensures CoverInv(s', time, T)
    ensures UncoveredZero(s', r0, c0)
  {
    assert s'.C[r0][c0] == 0;
    ShiftKeepsMarks(s, s', time, T);
    ShiftNonNegative(s, s', m);
    ShiftMarksOnZeros(s, s', m);
  }

  /** The invariants that speak only of marks and covers hold after a change
      of costs alone. */
  lemma ShiftKeepsMarks(s: Solver, s': Solver, time: seq<nat>, T: nat)
    requires WellFormed(s) && WellFormed(s') && s'.n == s.n && |time| == s.n
    requires s'.M == s.M && s'.rowCover == s.rowCover && s'.colCover == s.colCover
    requires StarsIndependent(s) && SomeColStarless(s) && CoveredColsStarred(s) && StarLinesSplit(s)
    requires CoveredRowsMarked(s, time, T) && PrimesPlaced(s) && PathOrder(s, time)
    ensures StarsIndependent(s') && SomeColStarless(s') && CoveredColsStarred(s') && StarLinesSplit(s')
    ensures CoveredRowsMarked(s', time, T) && PrimesPlaced(s') && PathOrder(s', time)
  {
    forall c | 0 <= c < s.n
      ensures ColHasStar(s', c) == ColHasStar(s, c)
    {
    }
    forall r | 0 <= r < s.n
      ensures RowHasStar(s', r) == RowHasStar(s, r) && RowHasPrime(s', r) == RowHasPrime(s, r)
    {
    }
  }

  /** Adding m to covered rows and taking it from uncovered columns keeps
      the costs non-negative when m is the smallest uncovered cost. */
  lemma ShiftNonNegative(s: Solver, s': Solver, m: int)
    requires WellFormed(s) && WellFormed(s') && s'.n == s.n && NonNegative(s) && m >= 0
    requires forall r, c :: 0 <= r < s.n && 0 <= c < s.n && !s.rowCover[r] && !s.colCover[c]
               ==> m <= s.C[r][c]
    requires forall r, c :: 0 <= r < s.n && 0 <= c < s.n ==>
               s'.C[r][c] == s.C[r][c] + (if s.rowCover[r] then m else 0)
                                       - (if s.colCover[c] then 0 else m)
    ensures NonNegative(s')
  {
    forall r, c | 0 <= r < s.n && 0 <= c < s.n
      ensures s'.C[r][c] >= 0
    {
      assert s.C[r][c] >= 0;
      assert s'.C[r][c] == s.C[r][c] + (if s.rowCover[r] then m else 0)
                                     - (if s.colCover[c] then 0 else m);
      if !s.rowCover[r] && !s.colCover[c] {
        assert m <= s.C[r][c];
      }
    }
  }

  /** A star lies on exactly one covered line and a prime on a covered row
      and an uncovered column, so the shift leaves every marked cost at 0. */
  lemma ShiftMarksOnZeros(s: Solver, s': Solver, m: int)
    requires WellFormed(s) && WellFormed(s') && s'.n == s.n && s'.M == s.M
    requires MarksOnZeros(s) && StarLinesSplit(s) && PrimesPlaced(s)
    requires forall r, c :: 0 <= r < s.n && 0 <= c < s.n ==>
               s'.C[r][c] == s.C[r][c] + (if s.rowCover[r] then m else 0)
                                       - (if s.colCover[c] then 0 else m)
    ensures MarksOnZeros(s')
  {
    forall r, c | 0 <= r < s.n && 0 <= c < s.n && s'.M[r][c] != Unmarked
      ensures s'.C[r][c] == 0
    {
      assert s.C[r][c] == 0;
    }
  }
}

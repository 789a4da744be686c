module MunkresSearch {
  import opened MunkresDefs

  /** The first uncovered zero in row-major order, or (-1, -1) when there is
      none (find_a_zero). The source reads C[0, 0] before any test, so the
      matrix must not be empty. */
  method FindAZero(s: Solver) returns (row: int, col: int)
    requires WellFormed(s) && s.n > 0
    ensures row == -1 <==> NoUncoveredZero(s)
    ensures row == -1 ==> col == -1
    ensures row != -1 ==> UncoveredZero(s, row, col)
    ensures row != -1 ==> forall r, c ::
              (0 <= r < s.n && 0 <= c < s.n && (r < row || (r == row && c < col)))
              ==> !UncoveredZero(s, r, c)
  {
    var r := 0;
    row, col := -1, -1;
    var done := false;
    while !done
      invariant 0 <= r <= s.n
      invariant !done ==> r < s.n && row == -1
      invariant row == -1 ==> col == -1
      invariant row == -1 ==> forall i, j :: 0 <= i < r && 0 <= j < s.n ==> !UncoveredZero(s, i, j)
      invariant row != -1 ==> UncoveredZero(s, row, col)
      invariant row != -1 ==> forall i, j ::
                  (0 <= i < s.n && 0 <= j < s.n && (i < row || (i == row && j < col)))
                  ==> !UncoveredZero(s, i, j)
      invariant done && row == -1 ==> r == s.n
      decreases s.n - r, !done
    {
      var c := 0;
      while true
        invariant 0 <= c < s.n && !done && row == -1 && col == -1
        invariant forall j :: 0 <= j < c ==> !UncoveredZero(s, r, j)
        decreases s.n - c
      {
        if s.C[r][c] == 0 && !s.rowCover[r] && !s.colCover[c] {
          row := r;
          col := c;
          done := true;
        }
        c := c + 1;
        if c >= s.n || done {
          break;
        }
      }
      r := r + 1;
      if r >= s.n {
        done := true;
      }
    }
  }

  /** Whether row `row` holds a star (star_in_row). */
  method StarInRow(s: Solver, row: int) returns (found: bool)
    requires WellFormed(s) && 0 <= row < s.n
    ensures found <==> RowHasStar(s, row)
  {
    found := false;
    for c := 0 to s.n
      invariant found <==> exists j :: 0 <= j < c && s.M[row][j] == Star
    {
      if s.M[row][c] == Star {
        found := true;
      }
    }
  }

  /** The last star of row `row`, or -1 (find_star_in_row). */
  method FindStarInRow(s: Solver, row: int) returns (col: int)
    requires WellFormed(s) && 0 <= row < s.n
    ensures col == -1 <==> !RowHasStar(s, row)
    ensures col != -1 ==> 0 <= col < s.n && s.M[row][col] == Star
    ensures col != -1 ==> forall j :: col < j < s.n ==> s.M[row][j] != Star
  {
    col := -1;
    for c := 0 to s.n
      invariant col == -1 <==> forall j :: 0 <= j < c ==> s.M[row][j] != Star
      invariant col != -1 ==> 0 <= col < c && s.M[row][col] == Star
      invariant col != -1 ==> forall j :: col < j < c ==> s.M[row][j] != Star
    {
      if s.M[row][c] == Star {
        col := c;
      }
    }
  }

  /** Primes the zero at (r, c). */
  function PrimeAt(s: Solver, r: int, c: int): (t: Solver)
    requires WellFormed(s) && 0 <= r < s.n && 0 <= c < s.n
    ensures WellFormed(t) && t.n == s.n && t.C == s.C
    ensures t.rowCover == s.rowCover && t.colCover == s.colCover
    ensures t.M[r][c] == Prime
    ensures forall i, j :: 0 <= i < s.n && 0 <= j < s.n && (i != r || j != c) ==> t.M[i][j] == s.M[i][j]
  {
    s.(M := s.M[r := s.M[r][c := Prime]])
  }

  /** Covers row r and uncovers column c. */
  function CoverRow(s: Solver, r: int, c: int): (t: Solver)
    requires WellFormed(s) && 0 <= r < s.n && 0 <= c < s.n
    ensures WellFormed(t) && t == s.(rowCover := t.rowCover, colCover := t.colCover)
    ensures t.rowCover == s.rowCover[r := true] && t.colCover == s.colCover[c := false]
  {
    s.(rowCover := s.rowCover[r := true], colCover := s.colCover[c := false])
  }

  /** Priming an uncovered zero changes no star: such a zero is unmarked. */
  lemma PrimeKeepsStars(s: Solver, time: seq<nat>, T: nat, row: int, col: int)
    requires CoverInv(s, time, T) && UncoveredZero(s, row, col)
    ensures s.M[row][col] == Unmarked
    ensures SameStars(s, PrimeAt(s, row, col))
    ensures forall c :: 0 <= c < s.n ==> ColHasStar(PrimeAt(s, row, col), c) == ColHasStar(s, c)
    ensures forall r :: 0 <= r < s.n ==> RowHasStar(PrimeAt(s, row, col), r) == RowHasStar(s, r)
    ensures StarsIndependent(PrimeAt(s, row, col))
    ensures MarksOnZeros(PrimeAt(s, row, col)) && NonNegative(PrimeAt(s, row, col))
  {
    UncoveredZeroUnmarked(s, row, col);
    PrimeUnmarkedKeepsStars(s, row, col);
  }

  /** An uncovered cell holds no star (one of a star's lines is covered)
      and no prime (a prime's row is covered). */
  lemma UncoveredZeroUnmarked(s: Solver, row: int, col: int)
    requires WellFormed(s) && StarLinesSplit(s) && PrimesPlaced(s) && UncoveredZero(s, row, col)
    ensures s.M[row][col] == Unmarked
  {
    assert s.M[row][col] != Star;
    assert s.M[row][col] != Prime;
  }

  /** Priming an unmarked zero keeps every star where it was. */
  lemma PrimeUnmarkedKeepsStars(s: Solver, row: int, col: int)
    requires WellFormed(s) && 0 <= row < s.n && 0 <= col < s.n
    requires s.M[row][col] == Unmarked && s.C[row][col] == 0
    requires StarsIndependent(s) && MarksOnZeros(s) && NonNegative(s)
    ensures SameStars(s, PrimeAt(s, row, col))
    ensures forall c :: 0 <= c < s.n ==> ColHasStar(PrimeAt(s, row, col), c) == ColHasStar(s, c)
    ensures forall r :: 0 <= r < s.n ==> RowHasStar(PrimeAt(s, row, col), r) == RowHasStar(s, r)
    ensures StarsIndependent(PrimeAt(s, row, col))
    ensures MarksOnZeros(PrimeAt(s, row, col)) && NonNegative(PrimeAt(s, row, col))
  {
    var t := PrimeAt(s, row, col);
    assert SameStars(s, t);
    SameStarsLines(s, t);
    SameStarsIndependent(s, t);
  }

  /** Covered rows keep their star and prime after the step-four update. */
  lemma CoveredRowsKeepMarks(s: Solver, time: seq<nat>, T: nat, row: int, col: int, cs: int)
    requires CoverInv(s, time, T) && UncoveredZero(s, row, col)
    requires 0 <= cs < s.n && s.M[row][cs] == Star
    ensures CoveredRowsMarked(CoverRow(PrimeAt(s, row, col), row, cs), time[row := T], T + 1)
  {
    var p := PrimeAt(s, row, col);
    var t := CoverRow(p, row, cs);
    PrimeKeepsStars(s, time, T, row, col);
    assert CoveredRowsMarked(s, time, T);
    forall r | 0 <= r < s.n && t.rowCover[r]
      ensures RowHasStar(t, r) && RowHasPrime(t, r) && time[row := T][r] < T + 1
    {
      if r == row {
        assert t.M[row][cs] == Star && t.M[row][col] == Prime;
      } else {
        assert s.rowCover[r];
        var c1 :| 0 <= c1 < s.n && s.M[r][c1] == Star;
        var c2 :| 0 <= c2 < s.n && s.M[r][c2] == Prime;
        assert t.M[r][c1] == Star && t.M[r][c2] == Prime;
      }
    }
  }

  /** Every star still has exactly one of its lines covered, and every prime
      sits in a covered row and an uncovered column. */
  lemma CoverLinesKept(s: Solver, time: seq<nat>, T: nat, row: int, col: int, cs: int)
    requires CoverInv(s, time, T) && UncoveredZero(s, row, col)
    requires 0 <= cs < s.n && s.M[row][cs] == Star
    ensures StarLinesSplit(CoverRow(PrimeAt(s, row, col), row, cs))
    ensures PrimesPlaced(CoverRow(PrimeAt(s, row, col), row, cs))
    ensures CoveredColsStarred(CoverRow(PrimeAt(s, row, col), row, cs))
  {
    var p := PrimeAt(s, row, col);
    var t := CoverRow(p, row, cs);
    PrimeKeepsStars(s, time, T, row, col);
    assert StarLinesSplit(s) && PrimesPlaced(s) && CoveredColsStarred(s);
    assert s.colCover[cs] && !s.colCover[col];
    forall r, c | 0 <= r < s.n && 0 <= c < s.n && t.M[r][c] == Star
      ensures t.rowCover[r] <==> !t.colCover[c]
    {
      assert s.M[r][c] == Star;
      if r == row {
        assert c == cs;
      } else {
        assert c != cs;
      }
    }
    forall r, c | 0 <= r < s.n && 0 <= c < s.n && t.M[r][c] == Prime
      ensures t.rowCover[r] && !t.colCover[c]
    {
      if r != row || c != col {
        assert s.M[r][c] == Prime;
        assert !s.colCover[c];
        assert s.colCover[cs];
      } else {
        assert s.colCover[cs];
      }
    }
  }

  /** The row covered now is stamped with the latest time, so primes still
      come after the stars of their columns. */
  lemma PathOrderKept(s: Solver, time: seq<nat>, T: nat, row: int, col: int, cs: int)
    requires CoverInv(s, time, T) && UncoveredZero(s, row, col)
    requires 0 <= cs < s.n && s.M[row][cs] == Star
    ensures PathOrder(CoverRow(PrimeAt(s, row, col), row, cs), time[row := T])
  {
    var p := PrimeAt(s, row, col);
    var t := CoverRow(p, row, cs);
    var time' := time[row := T];
    PrimeKeepsStars(s, time, T, row, col);
    assert PathOrder(s, time) && StarLinesSplit(s) && PrimesPlaced(s) && CoveredRowsMarked(s, time, T);
    forall r, c, r' | 0 <= r < s.n && 0 <= c < s.n && 0 <= r' < s.n
      && t.M[r][c] == Prime && t.M[r'][c] == Star
      ensures time'[r'] < time'[r]
    {
      assert s.M[r'][c] == Star;
      if r == row && c == col {
        assert s.rowCover[r'];
        assert time[r'] < T;
      } else {
        assert s.M[r][c] == Prime;
        assert s.rowCover[r] && !s.colCover[c];
        assert s.rowCover[r'];
        assert time[r'] < time[r];
      }
    }
  }

  /** Priming the uncovered zero (row, col) of a row that holds the star
      (row, cs), covering the row and uncovering the star's column keeps the
      invariant of step four, with the row stamped at time T. */
  lemma PrimeAndCover(s: Solver, time: seq<nat>, T: nat, row: int, col: int, cs: int)
    requires CoverInv(s, time, T) && UncoveredZero(s, row, col)
    requires 0 <= cs < s.n && s.M[row][cs] == Star
    ensures CoverInv(CoverRow(PrimeAt(s, row, col), row, cs), time[row := T], T + 1)
    ensures SameStars(s, CoverRow(PrimeAt(s, row, col), row, cs))
  {
    var p := PrimeAt(s, row, col);
    var t := CoverRow(p, row, cs);
    PrimeKeepsStars(s, time, T, row, col);
    CoveredRowsKeepMarks(s, time, T, row, col, cs);
    CoverLinesKept(s, time, T, row, col, cs);
    PathOrderKept(s, time, T, row, col, cs);
    CoverRowKeepsMarks(p, row, cs);
    SameStarsTrans(s, p, t);
    SameStarsLines(s, t);
    var c0 :| 0 <= c0 < s.n && !ColHasStar(s, c0);
    assert !ColHasStar(t, c0);
  }

  /** Moving covers changes neither the costs nor the marks. */
  lemma CoverRowKeepsMarks(p: Solver, row: int, cs: int)
    requires WellFormed(p) && 0 <= row < p.n && 0 <= cs < p.n
    requires NonNegative(p) && MarksOnZeros(p) && StarsIndependent(p)
    ensures SameStars(p, CoverRow(p, row, cs))
    ensures NonNegative(CoverRow(p, row, cs)) && MarksOnZeros(CoverRow(p, row, cs))
    ensures StarsIndependent(CoverRow(p, row, cs))
  {
  }

  /** Priming the uncovered zero (row, col) of a row that holds no star ends
      step four in a state from which step five can build its path. */
  lemma PrimeEndsSearch(s: Solver, time: seq<nat>, T: nat, row: int, col: int)
    requires CoverInv(s, time, T) && UncoveredZero(s, row, col) && !RowHasStar(s, row)
    ensures PathStart(PrimeAt(s, row, col), time[row := T], row, col)
    ensures SameStars(s, PrimeAt(s, row, col))
  {
    PrimeKeepsStars(s, time, T, row, col);
    PrimeEndsOrder(s, time, T, row, col);
    PrimeEndsRowsPrimed(s, time, T, row, col);
  }

  /** The last prime of step four comes after every star of its column:
      those stars lie in covered rows, stamped before T. */
  lemma PrimeEndsOrder(s: Solver, time: seq<nat>, T: nat, row: int, col: int)
    requires WellFormed(s) && |time| == s.n && UncoveredZero(s, row, col)
    requires PathOrder(s, time) && StarLinesSplit(s) && PrimesPlaced(s) && CoveredRowsMarked(s, time, T)
    ensures PathOrder(PrimeAt(s, row, col), time[row := T])
  {
    var t := PrimeAt(s, row, col);
    var time' := time[row := T];
    forall r, c, r' | 0 <= r < s.n && 0 <= c < s.n && 0 <= r' < s.n
      && t.M[r][c] == Prime && t.M[r'][c] == Star
      ensures time'[r'] < time'[r]
    {
      assert s.M[r'][c] == Star;
      if r == row && c == col {
        assert s.rowCover[r'];
        assert time[r'] < T;
      } else {
        assert s.M[r][c] == Prime;
        assert s.rowCover[r] && !s.colCover[c];
        assert s.rowCover[r'];
        assert r != row;
        assert time[r'] < time[r];
      }
    }
  }

  /** Every star in the column of a prime sits in a covered row, which holds
      a prime of its own. */
  lemma PrimeEndsRowsPrimed(s: Solver, time: seq<nat>, T: nat, row: int, col: int)
    requires WellFormed(s) && |time| == s.n && UncoveredZero(s, row, col) && !RowHasStar(s, row)
    requires StarLinesSplit(s) && PrimesPlaced(s) && CoveredRowsMarked(s, time, T)
    ensures forall r, c, r' ::
              (0 <= r < s.n && 0 <= c < s.n && 0 <= r' < s.n
               && PrimeAt(s, row, col).M[r][c] == Prime && PrimeAt(s, row, col).M[r'][c] == Star)
              ==> RowHasPrime(PrimeAt(s, row, col), r')
  {
    var t := PrimeAt(s, row, col);
    forall r, c, r' | 0 <= r < s.n && 0 <= c < s.n && 0 <= r' < s.n
      && t.M[r][c] == Prime && t.M[r'][c] == Star
      ensures RowHasPrime(t, r')
    {
      assert s.M[r'][c] == Star;
      if r == row && c == col {
        assert s.rowCover[r'];
      } else {
        assert s.M[r][c] == Prime;
        assert !s.colCover[c];
        assert s.rowCover[r'];
      }
      assert r' != row;
      var c2 :| 0 <= c2 < s.n && s.M[r'][c2] == Prime;
      assert t.M[r'][c2] == Prime;
    }
  }

  lemma SameStarsTrans(a: Solver, b: Solver, c: Solver)
    requires WellFormed(a) && WellFormed(b) && WellFormed(c) && a.n == b.n == c.n
    requires SameStars(a, b) && SameStars(b, c)
    ensures SameStars(a, c)
  {
  }

  /** Whether a cell is an uncovered zero depends only on the costs and the
      covers. */
  lemma NoZeroSameLines(s: Solver, t: Solver)
    requires WellFormed(s) && WellFormed(t) && s.n == t.n && s.C == t.C
    requires s.rowCover == t.rowCover && s.colCover == t.colCover
    requires NoUncoveredZero(s)
    ensures NoUncoveredZero(t)
  {
    forall r, c | 0 <= r < s.n && 0 <= c < s.n
      ensures !UncoveredZero(t, r, c)
    {
      assert !UncoveredZero(s, r, c);
    }
  }

  /** Primes the uncovered zero (row, col) of a starred row, covers the row
      and uncovers the column of its star: one more row is covered. */
  method PrimeInStarredRow(s: Solver, ghost time: seq<nat>, ghost T: nat, row: int, col: int)
    returns (t: Solver, ghost time': seq<nat>, ghost T': nat)
    requires CoverInv(s, time, T) && UncoveredZero(s, row, col) && RowHasStar(s, row)
    ensures t.n == s.n && t.C == s.C && WellFormed(t) && SameStars(s, t)
    ensures CoverInv(t, time', T')
    ensures CountTrue(t.rowCover) == CountTrue(s.rowCover) + 1
  {
    var cs := FindStarInRow(s, row);
    PrimeAndCover(s, time, T, row, col, cs);
    CountTrueRaise(s.rowCover, row);
    t := CoverRow(PrimeAt(s, row, col), row, cs);
    time' := time[row := T];
    T' := T + 1;
  }

  /** Primes uncovered zeros until one lies in a row without a star (next
      step 5, the primed zero being (row0, col0)) or no uncovered zero is left
      (next step 6). A prime in a starred row covers that row and uncovers the
      star's column (step four). Stars never change, and covers only ever move
      to rows not covered before. */
  method StepFour(s: Solver, ghost time: seq<nat>, ghost T: nat)
    returns (s': Solver, step: int, row0: int, col0: int, ghost time': seq<nat>, ghost T': nat)
    requires CoverInv(s, time, T)
    ensures s'.n == s.n && s'.C == s.C && WellFormed(s') && SameStars(s, s')
    ensures step == 5 || step == 6
    ensures step == 6 ==> CoverInv(s', time', T') && NoUncoveredZero(s')
    ensures step == 5 ==> PathStart(s', time', row0, col0)
    ensures CountTrue(s'.rowCover) >= CountTrue(s.rowCover)
    ensures step == 6 && CountTrue(s'.rowCover) == CountTrue(s.rowCover) ==> NoUncoveredZero(s)
  {
    s', time', T' := s, time, T;
    step, row0, col0 := 4, -1, -1;
    var done := false;
    while !done
      invariant s'.n == s.n && s'.C == s.C && WellFormed(s') && SameStars(s, s')
      invariant !done ==> CoverInv(s', time', T')
      invariant done ==> step == 5 || step == 6
      invariant done && step == 6 ==> CoverInv(s', time', T') && NoUncoveredZero(s')
      invariant done && step == 5 ==> PathStart(s', time', row0, col0)
      invariant CountTrue(s'.rowCover) >= CountTrue(s.rowCover)
      invariant CountTrue(s'.rowCover) == CountTrue(s.rowCover) ==>
                  s'.rowCover == s.rowCover && s'.colCover == s.colCover
      decreases !done, s.n - CountTrue(s'.rowCover)
    {
      var row, col := FindAZero(s');
      if row == -1 {
        done := true;
        step := 6;
      } else {
        var hasStar := StarInRow(s', row);
        if hasStar {
          ghost var prev := s';
          s', time', T' := PrimeInStarredRow(s', time', T', row, col);
          SameStarsTrans(s, prev, s');
        } else {
          PrimeEndsSearch(s', time', T', row, col);
          SameStarsTrans(s, s', PrimeAt(s', row, col));
          s' := PrimeAt(s', row, col);
          time' := time'[row := T'];
          done := true;
          step := 5;
          row0, col0 := row, col;
        }
      }
    }
    if step == 6 && CountTrue(s'.rowCover) == CountTrue(s.rowCover) {
      NoZeroSameLines(s', s);
    }
  }
}

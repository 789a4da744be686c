/** State of the Hungarian-method solver (the fields of MunkresSolver) and the
    facts about it that its steps maintain. The solver works on an n-by-n
    matrix; the mask entry of a cell is 0, 1 (a starred zero) or 2 (a primed
    zero), and each row and column carries a cover flag. */
module MunkresDefs {

  /** One entry of the mask matrix M. */
  datatype Mark = Unmarked | Star | Prime

  /** A cell of the matrix: (row, column). */
  type Cell = (int, int)

  /** The solver's working state: the reduced cost matrix C, the mask M and
      the row and column covers, all over n rows and n columns. */
  datatype Solver = Solver(n: nat, C: seq<seq<int>>, M: seq<seq<Mark>>,
                           rowCover: seq<bool>, colCover: seq<bool>)

  ghost predicate Square<T>(m: seq<seq<T>>, n: nat) {
    |m| == n && forall r :: 0 <= r < n ==> |m[r]| == n
  }

  ghost predicate WellFormed(s: Solver) {
    Square(s.C, s.n) && Square(s.M, s.n) && |s.rowCover| == s.n && |s.colCover| == s.n
  }

  /** A state at the start of step one: nothing marked, nothing covered. */
  ghost predicate Fresh(s: Solver) {
    WellFormed(s) && NoCovers(s)
    && forall r, c :: 0 <= r < s.n && 0 <= c < s.n ==> s.M[r][c] == Unmarked
  }

  ghost predicate NoCovers(s: Solver)
    requires |s.rowCover| == s.n && |s.colCover| == s.n
  {
    (forall r :: 0 <= r < s.n ==> !s.rowCover[r])
    && (forall c :: 0 <= c < s.n ==> !s.colCover[c])
  }

  ghost predicate NonNegative(s: Solver)
    requires WellFormed(s)
  {
    forall r, c :: 0 <= r < s.n && 0 <= c < s.n ==> s.C[r][c] >= 0
  }

  /** Only zeros are ever starred or primed. */
  ghost predicate MarksOnZeros(s: Solver)
    requires WellFormed(s)
  {
    forall r, c :: 0 <= r < s.n && 0 <= c < s.n && s.M[r][c] != Unmarked ==> s.C[r][c] == 0
  }

  ghost predicate NoPrimes(s: Solver)
    requires WellFormed(s)
  {
    forall r, c :: 0 <= r < s.n && 0 <= c < s.n ==> s.M[r][c] != Prime
  }

  /** No two starred zeros share a row or a column. */
  ghost predicate StarsIndependent(s: Solver)
    requires WellFormed(s)
  {
    (forall r, c1, c2 ::
       (0 <= r < s.n && 0 <= c1 < s.n && 0 <= c2 < s.n
        && s.M[r][c1] == Star && s.M[r][c2] == Star) ==> c1 == c2)
    && (forall r1, r2, c ::
       (0 <= r1 < s.n && 0 <= r2 < s.n && 0 <= c < s.n
        && s.M[r1][c] == Star && s.M[r2][c] == Star) ==> r1 == r2)
  }

  ghost predicate RowHasStar(s: Solver, r: int)
    requires WellFormed(s) && 0 <= r < s.n
  {
    exists c :: 0 <= c < s.n && s.M[r][c] == Star
  }

  ghost predicate ColHasStar(s: Solver, c: int)
    requires WellFormed(s) && 0 <= c < s.n
  {
    exists r :: 0 <= r < s.n && s.M[r][c] == Star
  }

  ghost predicate RowHasPrime(s: Solver, r: int)
    requires WellFormed(s) && 0 <= r < s.n
  {
    exists c :: 0 <= c < s.n && s.M[r][c] == Prime
  }

  ghost predicate RowHasZero(s: Solver, r: int)
    requires WellFormed(s) && 0 <= r < s.n
  {
    exists c :: 0 <= c < s.n && s.C[r][c] == 0
  }

  /** The column of the star in row `r`. */
  ghost function StarCol(s: Solver, r: int): (c: int)
    requires WellFormed(s) && 0 <= r < s.n && RowHasStar(s, r)
    ensures 0 <= c < s.n && s.M[r][c] == Star
  {
    var c :| 0 <= c < s.n && s.M[r][c] == Star; c
  }

  /** The row of the star in column `c`. */
  ghost function StarRow(s: Solver, c: int): (r: int)
    requires WellFormed(s) && 0 <= c < s.n && ColHasStar(s, c)
    ensures 0 <= r < s.n && s.M[r][c] == Star
  {
    var r :| 0 <= r < s.n && s.M[r][c] == Star; r
  }

  /** A zero in a row and a column that are both uncovered. */
  ghost predicate UncoveredZero(s: Solver, r: int, c: int)
    requires WellFormed(s)
  {
    0 <= r < s.n && 0 <= c < s.n && s.C[r][c] == 0 && !s.rowCover[r] && !s.colCover[c]
  }

  ghost predicate NoUncoveredZero(s: Solver)
    requires WellFormed(s)
  {
    forall r, c :: 0 <= r < s.n && 0 <= c < s.n ==> !UncoveredZero(s, r, c)
  }

  /** Both masks star exactly the same cells. */
  ghost predicate SameStars(s: Solver, t: Solver)
    requires WellFormed(s) && WellFormed(t) && s.n == t.n
  {
    forall r, c :: 0 <= r < s.n && 0 <= c < s.n ==> (s.M[r][c] == Star <==> t.M[r][c] == Star)
  }

  /** A primed zero is reached from the stars in its column only through rows
      covered earlier: `time[r]` is the moment row r was covered (or primed,
      for the row that ends step four). This order is what makes the
      alternating path of step five finite. */
  ghost predicate PathOrder(s: Solver, time: seq<nat>)
    requires WellFormed(s) && |time| == s.n
  {
    forall r, c, r' {:trigger s.M[r][c], s.M[r'][c]} ::
      (0 <= r < s.n && 0 <= c < s.n && 0 <= r' < s.n
       && s.M[r][c] == Prime && s.M[r'][c] == Star) ==> time[r'] < time[r]
  }

  /** Some column holds no star, so the assignment is not yet complete. */
  ghost predicate SomeColStarless(s: Solver)
    requires WellFormed(s)
  {
    exists c :: 0 <= c < s.n && !ColHasStar(s, c)
  }

  ghost predicate CoveredColsStarred(s: Solver)
    requires WellFormed(s)
  {
    forall c :: 0 <= c < s.n && s.colCover[c] ==> ColHasStar(s, c)
  }

  /** Exactly one of the two lines through a star is covered. */
  ghost predicate StarLinesSplit(s: Solver)
    requires WellFormed(s)
  {
    forall r, c {:trigger s.M[r][c]} :: 0 <= r < s.n && 0 <= c < s.n && s.M[r][c] == Star
      ==> (s.rowCover[r] <==> !s.colCover[c])
  }

  /** A covered row holds a star and a prime and was covered before time T. */
  ghost predicate CoveredRowsMarked(s: Solver, time: seq<nat>, T: nat)
    requires WellFormed(s) && |time| == s.n
  {
    forall r :: 0 <= r < s.n && s.rowCover[r]
      ==> RowHasStar(s, r) && RowHasPrime(s, r) && time[r] < T
  }

  /** Primes lie in covered rows and uncovered columns. */
  ghost predicate PrimesPlaced(s: Solver)
    requires WellFormed(s)
  {
    (forall r, c :: 0 <= r < s.n && 0 <= c < s.n && s.M[r][c] == Prime ==> s.rowCover[r])
    && (forall r, c {:trigger s.M[r][c]} ::
          0 <= r < s.n && 0 <= c < s.n && s.M[r][c] == Prime ==> !s.colCover[c])
  }

  /** What holds each time step four or step six begins: the stars form an
      incomplete independent set, every covered column holds a star, a star
      has exactly one of its row and column covered, every covered row holds a
      star and a prime, and primes lie in covered rows and uncovered columns. */
  ghost predicate CoverInv(s: Solver, time: seq<nat>, T: nat) {
    WellFormed(s) && NonNegative(s) && MarksOnZeros(s) && StarsIndependent(s)
    && |time| == s.n
    && SomeColStarless(s) && CoveredColsStarred(s) && StarLinesSplit(s)
    && CoveredRowsMarked(s, time, T) && PrimesPlaced(s) && PathOrder(s, time)
  }

  /** What holds when step five begins at the primed zero (r0, c0), whose
      row holds no star: every star in the column of a prime sits in a row
      that also holds a prime, so the alternating path can always go on. */
  ghost predicate PathStart(s: Solver, time: seq<nat>, r0: int, c0: int) {
    WellFormed(s) && NonNegative(s) && MarksOnZeros(s) && StarsIndependent(s)
    && |time| == s.n
    && 0 <= r0 < s.n && 0 <= c0 < s.n && s.M[r0][c0] == Prime && !RowHasStar(s, r0)
    && PathOrder(s, time)
    && (forall r, c, r' ::
          (0 <= r < s.n && 0 <= c < s.n && 0 <= r' < s.n
           && s.M[r][c] == Prime && s.M[r'][c] == Star) ==> RowHasPrime(s, r'))
  }

  /** What holds when step three begins. */
  ghost predicate StarsOnly(s: Solver) {
    WellFormed(s) && NonNegative(s) && MarksOnZeros(s) && StarsIndependent(s)
    && NoPrimes(s) && NoCovers(s)
  }

  /** Masks that star the same cells star the same rows and columns. */
  lemma SameStarsLines(s: Solver, t: Solver)
    requires WellFormed(s) && WellFormed(t) && s.n == t.n && SameStars(s, t)
    ensures forall r :: 0 <= r < s.n ==> RowHasStar(t, r) == RowHasStar(s, r)
    ensures forall c :: 0 <= c < s.n ==> ColHasStar(t, c) == ColHasStar(s, c)
  {
    forall r | 0 <= r < s.n
      ensures RowHasStar(t, r) == RowHasStar(s, r)
    {
      if RowHasStar(s, r) {
        var c :| 0 <= c < s.n && s.M[r][c] == Star;
        assert t.M[r][c] == Star;
      }
      if RowHasStar(t, r) {
        var c :| 0 <= c < s.n && t.M[r][c] == Star;
        assert s.M[r][c] == Star;
      }
    }
    forall c | 0 <= c < s.n
      ensures ColHasStar(t, c) == ColHasStar(s, c)
    {
      if ColHasStar(s, c) {
        var r :| 0 <= r < s.n && s.M[r][c] == Star;
        assert t.M[r][c] == Star;
      }
      if ColHasStar(t, c) {
        var r :| 0 <= r < s.n && t.M[r][c] == Star;
        assert s.M[r][c] == Star;
      }
    }
  }

  /** Independence depends on the starred cells only. */
  lemma SameStarsIndependent(s: Solver, t: Solver)
    requires WellFormed(s) && WellFormed(t) && s.n == t.n && SameStars(s, t) && StarsIndependent(s)
    ensures StarsIndependent(t)
  {
  }

  /** Changing anything but the starred cells keeps the number of starred rows. */
  lemma SameStarsSameCount(s: Solver, t: Solver)
    requires WellFormed(s) && WellFormed(t) && s.n == t.n && SameStars(s, t)
    ensures StarCount(s) == StarCount(t)
  {
    forall r | 0 <= r < s.n
      ensures RowHasStar(s, r) == RowHasStar(t, r)
    {
      if RowHasStar(s, r) {
        var c :| 0 <= c < s.n && s.M[r][c] == Star;
        assert t.M[r][c] == Star;
      }
      if RowHasStar(t, r) {
        var c :| 0 <= c < s.n && t.M[r][c] == Star;
        assert s.M[r][c] == Star;
      }
    }
    assert StarredRows(s) == StarredRows(t);
  }

  /** Number of true flags. */
  function CountTrue(b: seq<bool>): (k: nat)
    ensures k <= |b|
  {
    if |b| == 0 then 0 else CountTrue(b[..|b| - 1]) + (if b[|b| - 1] then 1 else 0)
  }

  lemma {:induction false} CountTrueAll(b: seq<bool>)
    ensures CountTrue(b) == |b| <==> forall i :: 0 <= i < |b| ==> b[i]
  {
    if |b| > 0 {
      var b' := b[..|b| - 1];
      CountTrueAll(b');
      assert forall i :: 0 <= i < |b'| ==> b'[i] == b[i];
    }
  }

  /** Raising one false flag raises the count by exactly one. */
  lemma {:induction false} CountTrueRaise(b: seq<bool>, i: int)
    requires 0 <= i < |b| && !b[i]
    ensures CountTrue(b[i := true]) == CountTrue(b) + 1
  {
    var b' := b[i := true];
    if i < |b| - 1 {
      assert b'[..|b| - 1] == b[..|b| - 1][i := true];
      CountTrueRaise(b[..|b| - 1], i);
    } else {
      assert b'[..|b| - 1] == b[..|b| - 1];
    }
  }

  /** Which rows hold a starred zero. */
  ghost function StarredRows(s: Solver): (b: seq<bool>)
    requires WellFormed(s)
    ensures |b| == s.n
    ensures forall r :: 0 <= r < s.n ==> (b[r] <==> RowHasStar(s, r))
  {
    seq(s.n, r requires 0 <= r < s.n => RowHasStar(s, r))
  }

  /** Number of rows holding a starred zero: the size of the current partial
      assignment. */
  ghost function StarCount(s: Solver): (k: nat)
    requires WellFormed(s)
    ensures k <= s.n
  {
    CountTrue(StarredRows(s))
  }

  // ---------------------------------------------------------------------------
  // Pigeonhole: a one-to-one map of [0, n) into [0, n) is onto.

  /** The sequence 0, 1, ..., n - 1. */
  function Iota(n: nat): (r: seq<int>)
    ensures |r| == n && forall i :: 0 <= i < n ==> r[i] == i
  {
    seq(n, i => i)
  }

  lemma {:induction false} CardDistinct(f: seq<int>)
    requires forall i, j :: 0 <= i < j < |f| ==> f[i] != f[j]
    ensures |set x | x in f| == |f|
  {
    if |f| > 0 {
      var f' := f[..|f| - 1];
      CardDistinct(f');
      assert (set x | x in f) == (set x | x in f') + {f[|f| - 1]};
      assert f[|f| - 1] !in f';
    }
  }

  lemma SubsetCard(A: set<int>, B: set<int>)
    requires A <= B
    ensures |A| <= |B|
  {
    assert B == A + (B - A);
    assert A * (B - A) == {};
  }

  lemma Pigeonhole(f: seq<int>, n: nat)
    requires |f| == n
    requires forall i :: 0 <= i < n ==> 0 <= f[i] < n
    requires forall i, j :: 0 <= i < j < n ==> f[i] != f[j]
    ensures forall c :: 0 <= c < n ==> c in f
  {
    var image := set x | x in f;
    var range := set x | x in Iota(n);
    CardDistinct(f);
    CardDistinct(Iota(n));
    forall x | x in image
      ensures x in range
    {
      assert Iota(n)[x] == x;
    }
    if image != range {
      var x :| x in range && x !in image;
      SubsetCard(image, range - {x});
    }
    forall c | 0 <= c < n
      ensures c in f
    {
      assert Iota(n)[c] == c;
      assert c in range;
    }
  }

  /** When every row holds a star, so does every column. */
  lemma RowsStarredColsStarred(s: Solver)
    requires WellFormed(s) && StarsIndependent(s)
    requires forall r :: 0 <= r < s.n ==> RowHasStar(s, r)
    ensures forall c :: 0 <= c < s.n ==> ColHasStar(s, c)
  {
    var f := seq(s.n, r requires 0 <= r < s.n => StarCol(s, r));
    Pigeonhole(f, s.n);
    forall c | 0 <= c < s.n
      ensures ColHasStar(s, c)
    {
      assert c in f;
      var r :| 0 <= r < |f| && f[r] == c;
      assert s.M[r][c] == Star;
    }
  }

  /** When every column holds a star, so does every row. */
  lemma ColsStarredRowsStarred(s: Solver)
    requires WellFormed(s) && StarsIndependent(s)
    requires forall c :: 0 <= c < s.n ==> ColHasStar(s, c)
    ensures forall r :: 0 <= r < s.n ==> RowHasStar(s, r)
  {
    var f := seq(s.n, c requires 0 <= c < s.n => StarRow(s, c));
    Pigeonhole(f, s.n);
    forall r | 0 <= r < s.n
      ensures RowHasStar(s, r)
    {
      assert r in f;
      var c :| 0 <= c < |f| && f[c] == r;
      assert s.M[r][c] == Star;
    }
  }
}

/** Step five of the Hungarian method: the alternating path of primed and
    starred zeros, and the exchange along it that enlarges the set of stars
    by one. */
module MunkresPath {
  import opened MunkresDefs
  import MunkresSteps
  import opened MunkresExchange

  /** The last star of column `c`, or -1 (find_star_in_col). */
  method FindStarInCol(s: Solver, c: int) returns (r: int)
    requires WellFormed(s) && 0 <= c < s.n
    ensures r == -1 <==> !ColHasStar(s, c)
    ensures r != -1 ==> 0 <= r < s.n && s.M[r][c] == Star
  {
    r := -1;
    for i := 0 to s.n
      invariant r == -1 <==> forall k :: 0 <= k < i ==> s.M[k][c] != Star
      invariant r != -1 ==> 0 <= r < i && s.M[r][c] == Star
    {
      if s.M[i][c] == Star {
        r := i;
      }
    }
  }

  /** The last prime of row `r`; `c` comes back unchanged when the row holds
      none (find_prime_in_row). */
  method FindPrimeInRow(s: Solver, r: int, c: int) returns (c': int)
    requires WellFormed(s) && 0 <= r < s.n
    ensures RowHasPrime(s, r) ==> 0 <= c' < s.n && s.M[r][c'] == Prime
    ensures !RowHasPrime(s, r) ==> c' == c
  {
    c' := c;
    ghost var seen := false;
    for j := 0 to s.n
      invariant seen <==> exists k :: 0 <= k < j && s.M[r][k] == Prime
      invariant seen ==> 0 <= c' < j && s.M[r][c'] == Prime
      invariant !seen ==> c' == c
    {
      if s.M[r][j] == Prime {
        c' := j;
        seen := true;
      }
    }
  }

  /** Flips every cell of a path that visits no cell twice (augment_path). */
  method AugmentPath(s: Solver, path: seq<Cell>) returns (s': Solver)
    requires WellFormed(s)
    requires forall i :: 0 <= i < |path| ==> 0 <= path[i].0 < s.n && 0 <= path[i].1 < s.n
    requires forall i, j :: 0 <= i < j < |path| ==> path[i] != path[j]
    ensures s' == s.(M := s'.M) && WellFormed(s')
    ensures forall r, c :: 0 <= r < s.n && 0 <= c < s.n ==>
              s'.M[r][c] == if (r, c) in path then Flip(s.M[r][c]) else s.M[r][c]
  {
    var M := s.M;
    for p := 0 to |path|
      invariant |M| == s.n && forall i :: 0 <= i < s.n ==> |M[i]| == s.n
      invariant forall r, c :: 0 <= r < s.n && 0 <= c < s.n ==>
                  M[r][c] == if (r, c) in path[..p] then Flip(s.M[r][c]) else s.M[r][c]
    {
      var (r, c) := path[p];
      assert (r, c) !in path[..p];
      M := M[r := M[r][c := Flip(M[r][c])]];
      assert path[..p + 1] == path[..p] + [(r, c)];
    }
    assert path[..|path|] == path;
    s' := s.(M := M);
  }

  /** Clears every prime (erase_primes). */
  method ErasePrimes(s: Solver) returns (s': Solver)
    requires WellFormed(s)
    ensures s' == s.(M := s'.M) && WellFormed(s') && NoPrimes(s')
    ensures forall r, c :: 0 <= r < s.n && 0 <= c < s.n ==>
              s'.M[r][c] == if s.M[r][c] == Prime then Unmarked else s.M[r][c]
  {
    var M := s.M;
    for r := 0 to s.n
      invariant |M| == s.n && forall i :: 0 <= i < s.n ==> |M[i]| == s.n
      invariant forall i, c :: 0 <= i < r && 0 <= c < s.n ==>
                  M[i][c] == if s.M[i][c] == Prime then Unmarked else s.M[i][c]
      invariant forall i :: r <= i < s.n ==> M[i] == s.M[i]
    {
      var row := M[r];
      for c := 0 to s.n
        invariant |row| == s.n
        invariant forall j :: 0 <= j < c ==> row[j] == if s.M[r][j] == Prime then Unmarked else s.M[r][j]
        invariant forall j :: c <= j < s.n ==> row[j] == s.M[r][j]
      {
        if row[c] == Prime {
          row := row[c := Unmarked];
        }
      }
      M := M[r := row];
    }
    s' := s.(M := M);
  }

  /** Builds the alternating path from the prime (r0, c0): the star in the
      column of the last prime, then the prime in that star's row, until a
      column holds no star (the loop of step five). */
  method BuildPath(s: Solver, ghost time: seq<nat>, r0: int, c0: int) returns (path: seq<Cell>)
    requires PathStart(s, time, r0, c0)
    ensures FinishedPath(s, time, r0, c0, path)
  {
    path := [(r0, c0)];
    var done := false;
    var c := -1;
    while !done
      invariant PathShape(s, time, path) && path[0] == (r0, c0)
      invariant done ==> !ColHasStar(s, path[|path| - 1].1)
      decreases !done, time[path[|path| - 1].0]
    {
      ghost var prev := path;
      var last := path[|path| - 1];
      var r := FindStarInCol(s, last.1);
      if r > -1 {
        path := path + [(r, last.1)];
      } else {
        done := true;
      }
      if !done {
        c := FindPrimeInRow(s, path[|path| - 1].0, c);
        path := path + [(path[|path| - 1].0, c)];
        ExtendShape(s, time, r0, c0, prev, r, c);
        assert path == prev + [(r, last.1), (r, c)];
      }
    }
  }

  /** Exchanges stars and primes along the path, uncovers everything and
      erases the primes (step five). The result holds one more starred row
      than before: the row r0 where the path began. */
  method StepFive(s: Solver, ghost time: seq<nat>, r0: int, c0: int) returns (s': Solver, step: int)
    requires PathStart(s, time, r0, c0)
    ensures step == 3
    ensures s'.n == s.n && s'.C == s.C && StarsOnly(s')
    ensures StarCount(s') == StarCount(s) + 1
    ensures forall r :: 0 <= r < s.n ==> (RowHasStar(s', r) <==> RowHasStar(s, r) || r == r0)
  {
    var path := BuildPath(s, time, r0, c0);
    PathCellsDistinct(s, time, path);
    var a := AugmentPath(s, path);
    var b := MunkresSteps.ClearCovers(a);
    s' := ErasePrimes(b);
    ExchangeMarks(s, time, r0, c0, path, a, b, s');
    AugmentStars(s, time, r0, c0, path, s');
    step := 3;
  }

  /** The three passes of step five leave a star exactly where `NewStar`
      says. */
  lemma ExchangeMarks(s: Solver, time: seq<nat>, r0: int, c0: int, path: seq<Cell>,
                      a: Solver, b: Solver, F: Solver)
    requires FinishedPath(s, time, r0, c0, path)
    requires a == s.(M := a.M) && WellFormed(a)
    requires forall r, c :: 0 <= r < s.n && 0 <= c < s.n ==>
               a.M[r][c] == if (r, c) in path then Flip(s.M[r][c]) else s.M[r][c]
    requires b.n == a.n && b.M == a.M && WellFormed(b)
    requires F.n == b.n && WellFormed(F) && NoPrimes(F)
    requires forall r, c :: 0 <= r < s.n && 0 <= c < s.n ==>
               F.M[r][c] == if b.M[r][c] == Prime then Unmarked else b.M[r][c]
    ensures forall r, c :: 0 <= r < s.n && 0 <= c < s.n ==> (F.M[r][c] == Star <==> NewStar(s, path, r, c))
  {
    forall r, c | 0 <= r < s.n && 0 <= c < s.n
      ensures F.M[r][c] == Star <==> NewStar(s, path, r, c)
    {
      if (r, c) in path {
        var i := PathIndex(s, time, path, r, c);
      }
    }
  }
}

/** The exchange of step five: why flipping the marks along the alternating
    path of primes and stars leaves an independent set of stars with one more
    starred row. */
module MunkresExchange {
  import opened MunkresDefs

  /** The shape of a path built by step five: it starts and ends at primes and
      alternates prime, star, prime, ...; each star shares the column of the
      prime before it, each prime shares the row of the star before it, and
      the rows of the primes were covered at strictly decreasing times. */
  ghost predicate PathShape(s: Solver, time: seq<nat>, path: seq<Cell>)
    requires WellFormed(s) && |time| == s.n
  {
    |path| % 2 == 1 && PathInRange(s, path) && PathMarks(s, path) && PathLinks(path)
    && PathTimes(s, time, path)
  }

  ghost predicate PathInRange(s: Solver, path: seq<Cell>) {
    forall i :: 0 <= i < |path| ==> 0 <= path[i].0 < s.n && 0 <= path[i].1 < s.n
  }

  ghost predicate PathMarks(s: Solver, path: seq<Cell>)
    requires WellFormed(s) && PathInRange(s, path)
  {
    forall i :: 0 <= i < |path| ==> s.M[path[i].0][path[i].1] == (if i % 2 == 0 then Prime else Star)
  }

  ghost predicate PathLinks(path: seq<Cell>) {
    (forall i :: 0 < i < |path| && i % 2 == 1 ==> path[i].1 == path[i - 1].1)
    && (forall i :: 0 < i < |path| && i % 2 == 0 ==> path[i].0 == path[i - 1].0)
  }

  ghost predicate PathTimes(s: Solver, time: seq<nat>, path: seq<Cell>)
    requires |time| == s.n && PathInRange(s, path)
  {
    forall i, j :: 0 <= i < j < |path| && i % 2 == 0 && j % 2 == 0
      ==> time[path[j].0] < time[path[i].0]
  }

  /** A finished path: it starts at the prime found by step four and its last
      prime has no star in its column. */
  ghost predicate FinishedPath(s: Solver, time: seq<nat>, r0: int, c0: int, path: seq<Cell>) {
    PathStart(s, time, r0, c0) && PathShape(s, time, path) && path[0] == (r0, c0)
    && !ColHasStar(s, path[|path| - 1].1)
  }

  /** Flips a mask entry along the path: a star is unstarred, anything else
      becomes a star. */
  function Flip(m: Mark): Mark {
    if m == Star then Unmarked else Star
  }

  /** Appending the star of the last prime's column and the prime of that
      star's row keeps the shape of the path. */
  lemma ExtendShape(s: Solver, time: seq<nat>, r0: int, c0: int, path: seq<Cell>, r: int, c: int)
    requires PathStart(s, time, r0, c0) && PathShape(s, time, path)
    requires 0 <= r < s.n && s.M[r][path[|path| - 1].1] == Star
    requires RowHasPrime(s, r) ==> 0 <= c < s.n && s.M[r][c] == Prime
    ensures PathShape(s, time, path + [(r, path[|path| - 1].1), (r, c)])
    ensures time[r] < time[path[|path| - 1].0]
  {
    var last := path[|path| - 1];
    assert s.M[last.0][last.1] == Prime by {
      assert (|path| - 1) % 2 == 0;
    }
    assert time[r] < time[last.0];
    assert RowHasPrime(s, r);
    var p := path + [(r, last.1), (r, c)];
    ExtendMarks(s, path, r, c);
    ExtendLinks(path, r, c);
    ExtendTimes(s, time, path, r, c);
  }

  lemma ExtendMarks(s: Solver, path: seq<Cell>, r: int, c: int)
    requires WellFormed(s) && PathInRange(s, path) && PathMarks(s, path) && |path| > 0
    requires 0 <= r < s.n && 0 <= c < s.n && s.M[r][path[|path| - 1].1] == Star && s.M[r][c] == Prime
    requires |path| % 2 == 1
    ensures PathInRange(s, path + [(r, path[|path| - 1].1), (r, c)])
    ensures PathMarks(s, path + [(r, path[|path| - 1].1), (r, c)])
  {
    var p := path + [(r, path[|path| - 1].1), (r, c)];
    forall i | 0 <= i < |p|
      ensures 0 <= p[i].0 < s.n && 0 <= p[i].1 < s.n
      ensures s.M[p[i].0][p[i].1] == (if i % 2 == 0 then Prime else Star)
    {
      if i < |path| {
        assert p[i] == path[i];
      }
    }
  }

  lemma ExtendLinks(path: seq<Cell>, r: int, c: int)
    requires PathLinks(path) && |path| % 2 == 1
    ensures PathLinks(path + [(r, path[|path| - 1].1), (r, c)])
  {
    var p := path + [(r, path[|path| - 1].1), (r, c)];
    forall i | 0 < i < |p|
      ensures i % 2 == 1 ==> p[i].1 == p[i - 1].1
      ensures i % 2 == 0 ==> p[i].0 == p[i - 1].0
    {
      if i < |path| {
        assert p[i] == path[i] && p[i - 1] == path[i - 1];
      }
    }
  }

  lemma ExtendTimes(s: Solver, time: seq<nat>, path: seq<Cell>, r: int, c: int)
    requires |time| == s.n && PathInRange(s, path) && PathTimes(s, time, path) && |path| % 2 == 1
    requires 0 <= r < s.n && 0 <= c < s.n && time[r] < time[path[|path| - 1].0]
    ensures PathInRange(s, path + [(r, path[|path| - 1].1), (r, c)])
    ensures PathTimes(s, time, path + [(r, path[|path| - 1].1), (r, c)])
  {
    var p := path + [(r, path[|path| - 1].1), (r, c)];
    assert PathInRange(s, p) by {
      forall i | 0 <= i < |p|
        ensures 0 <= p[i].0 < s.n && 0 <= p[i].1 < s.n
      {
        if i < |path| {
          assert p[i] == path[i];
        }
      }
    }
    forall i, j | 0 <= i < j < |p| && i % 2 == 0 && j % 2 == 0
      ensures time[p[j].0] < time[p[i].0]
    {
      if j < |path| {
        assert p[i] == path[i] && p[j] == path[j];
      } else if i < |path| - 1 {
        assert p[i] == path[i];
        assert time[path[|path| - 1].0] < time[path[i].0];
      }
    }
  }

  /** Primes on the path lie in distinct rows; so do its stars. Hence the
      path visits no cell twice. */
  lemma PathCellsDistinct(s: Solver, time: seq<nat>, path: seq<Cell>)
    requires WellFormed(s) && |time| == s.n && PathShape(s, time, path)
    ensures forall i, j :: 0 <= i < j < |path| ==> path[i] != path[j]
    ensures forall i, j :: 0 <= i < j < |path| && i % 2 == j % 2 ==> path[i].0 != path[j].0
  {
    forall i, j | 0 <= i < j < |path| && i % 2 == j % 2
      ensures path[i].0 != path[j].0
    {
      if i % 2 == 0 {
        assert time[path[j].0] < time[path[i].0];
      } else {
        assert path[i + 1].0 == path[i].0 && path[j + 1].0 == path[j].0;
        assert time[path[j + 1].0] < time[path[i + 1].0];
      }
    }
    forall i, j | 0 <= i < j < |path|
      ensures path[i] != path[j]
    {
      if i % 2 != j % 2 {
        assert s.M[path[i].0][path[i].1] != s.M[path[j].0][path[j].1];
      }
    }
  }

  /** The mark a cell carries after the exchange and the erasure of primes:
      a star exactly at the path's primes and at the stars off the path. */
  ghost predicate NewStar(s: Solver, path: seq<Cell>, r: int, c: int)
    requires WellFormed(s) && 0 <= r < s.n && 0 <= c < s.n
  {
    if (r, c) in path then s.M[r][c] == Prime else s.M[r][c] == Star
  }

  /** A cell of the path carries a prime exactly at even positions. */
  lemma PathIndex(s: Solver, time: seq<nat>, path: seq<Cell>, r: int, c: int) returns (i: int)
    requires WellFormed(s) && |time| == s.n && PathShape(s, time, path) && (r, c) in path
    ensures 0 <= i < |path| && path[i] == (r, c)
    ensures 0 <= r < s.n && 0 <= c < s.n
    ensures s.M[r][c] == Prime <==> i % 2 == 0
  {
    i :| 0 <= i < |path| && path[i] == (r, c);
  }

  /** Distinct primes of a path lie in distinct rows, and so do distinct stars. */
  lemma RowFixesIndex(s: Solver, time: seq<nat>, path: seq<Cell>, i: int, j: int)
    requires WellFormed(s) && |time| == s.n && PathShape(s, time, path)
    requires 0 <= i < |path| && 0 <= j < |path| && i % 2 == j % 2 && path[i].0 == path[j].0
    ensures i == j
  {
    PathCellsDistinct(s, time, path);
  }

  /** The neighbours of a prime on the path: the star before it shares its
      row, the star after it shares its column. */
  lemma PrimeNeighbours(s: Solver, time: seq<nat>, path: seq<Cell>, i: int)
    requires WellFormed(s) && |time| == s.n && PathShape(s, time, path)
    requires 0 <= i < |path| && i % 2 == 0
    ensures i > 0 ==> path[i - 1].0 == path[i].0 && s.M[path[i].0][path[i - 1].1] == Star
    ensures i + 1 < |path| ==> path[i + 1].1 == path[i].1 && s.M[path[i + 1].0][path[i].1] == Star
  {
  }

  /** No two new stars share a row. */
  lemma NewStarRowUnique(s: Solver, time: seq<nat>, r0: int, c0: int, path: seq<Cell>,
                         r: int, c1: int, c2: int)
    requires FinishedPath(s, time, r0, c0, path)
    requires 0 <= r < s.n && 0 <= c1 < s.n && 0 <= c2 < s.n
    requires NewStar(s, path, r, c1) && NewStar(s, path, r, c2)
    ensures c1 == c2
  {
    var in1 := (r, c1) in path;
    var in2 := (r, c2) in path;
    if in1 && in2 {
      var i := PathIndex(s, time, path, r, c1);
      var j := PathIndex(s, time, path, r, c2);
      RowFixesIndex(s, time, path, i, j);
    } else if in1 || in2 {
      var ca, cb := if in1 then c1 else c2, if in1 then c2 else c1;
      var i := PathIndex(s, time, path, r, ca);
      PrimeNeighbours(s, time, path, i);
    }
  }

  /** No two new stars share a column. */
  lemma NewStarColUnique(s: Solver, time: seq<nat>, r0: int, c0: int, path: seq<Cell>,
                         c: int, r1: int, r2: int)
    requires FinishedPath(s, time, r0, c0, path)
    requires 0 <= c < s.n && 0 <= r1 < s.n && 0 <= r2 < s.n
    requires NewStar(s, path, r1, c) && NewStar(s, path, r2, c)
    ensures r1 == r2
  {
    var in1 := (r1, c) in path;
    var in2 := (r2, c) in path;
    if in1 && in2 {
      ColUniqueOnPath(s, time, r0, c0, path, c, r1, r2);
    } else if in1 {
      ColUniqueOffPath(s, time, r0, c0, path, c, r1, r2);
    } else if in2 {
      ColUniqueOffPath(s, time, r0, c0, path, c, r2, r1);
    }
  }

  /** Two primes of the path in one column are the same cell. */
  lemma ColUniqueOnPath(s: Solver, time: seq<nat>, r0: int, c0: int, path: seq<Cell>,
                        c: int, r1: int, r2: int)
    requires FinishedPath(s, time, r0, c0, path)
    requires 0 <= c < s.n && 0 <= r1 < s.n && 0 <= r2 < s.n
    requires (r1, c) in path && (r2, c) in path && s.M[r1][c] == Prime && s.M[r2][c] == Prime
    ensures r1 == r2
  {
    var last := |path| - 1;
    var i := PathIndex(s, time, path, r1, c);
    var j := PathIndex(s, time, path, r2, c);
    PrimeNeighbours(s, time, path, i);
    PrimeNeighbours(s, time, path, j);
    if i < last && j < last {
      RowFixesIndex(s, time, path, i + 1, j + 1);
    }
  }

  /** The path takes the star in the column of each of its primes. */
  lemma ColUniqueOffPath(s: Solver, time: seq<nat>, r0: int, c0: int, path: seq<Cell>,
                         c: int, ra: int, rb: int)
    requires FinishedPath(s, time, r0, c0, path)
    requires 0 <= c < s.n && 0 <= ra < s.n && 0 <= rb < s.n
    requires (ra, c) in path && s.M[ra][c] == Prime && s.M[rb][c] == Star
    ensures (rb, c) in path
  {
    var i := PathIndex(s, time, path, ra, c);
    PrimeNeighbours(s, time, path, i);
  }

  /** A row holds a new star exactly when it held a star before or is the row
      of the prime that started the path. */
  lemma NewStarRows(s: Solver, time: seq<nat>, r0: int, c0: int, path: seq<Cell>, r: int)
    requires FinishedPath(s, time, r0, c0, path) && 0 <= r < s.n
    ensures (exists c :: 0 <= c < s.n && NewStar(s, path, r, c)) <==> RowHasStar(s, r) || r == r0
  {
    PathCellsDistinct(s, time, path);
    if r == r0 {
      assert path[0] == (r0, c0);
      assert NewStar(s, path, r0, c0);
    }
    if RowHasStar(s, r) {
      var c :| 0 <= c < s.n && s.M[r][c] == Star;
      if (r, c) in path {
        var i := PathIndex(s, time, path, r, c);
        assert i + 1 < |path|;
        assert path[i + 1].0 == r;
        assert NewStar(s, path, r, path[i + 1].1);
      } else {
        assert NewStar(s, path, r, c);
      }
    }
    if c :| 0 <= c < s.n && NewStar(s, path, r, c) {
      if (r, c) in path {
        var i := PathIndex(s, time, path, r, c);
        if i > 0 {
          assert path[i - 1].0 == r && s.M[r][path[i - 1].1] == Star;
        }
      } else {
        assert s.M[r][c] == Star;
      }
    }
  }

  /** After the exchange the stars are again independent, sit on zeros and
      occupy one more row: the row where the path began. */
  lemma AugmentStars(s: Solver, time: seq<nat>, r0: int, c0: int, path: seq<Cell>, F: Solver)
    requires FinishedPath(s, time, r0, c0, path)
    requires WellFormed(F) && F.n == s.n && F.C == s.C && NoPrimes(F) && NoCovers(F)
    requires forall r, c :: 0 <= r < s.n && 0 <= c < s.n ==> (F.M[r][c] == Star <==> NewStar(s, path, r, c))
    ensures StarsOnly(F)
    ensures forall r :: 0 <= r < s.n ==> (RowHasStar(F, r) <==> RowHasStar(s, r) || r == r0)
    ensures StarCount(F) == StarCount(s) + 1
  {
    forall r, c1, c2 | 0 <= r < s.n && 0 <= c1 < s.n && 0 <= c2 < s.n
      && F.M[r][c1] == Star && F.M[r][c2] == Star
      ensures c1 == c2
    {
      NewStarRowUnique(s, time, r0, c0, path, r, c1, c2);
    }
    forall r1, r2, c | 0 <= r1 < s.n && 0 <= r2 < s.n && 0 <= c < s.n
      && F.M[r1][c] == Star && F.M[r2][c] == Star
      ensures r1 == r2
    {
      NewStarColUnique(s, time, r0, c0, path, c, r1, r2);
    }
    forall r, c | 0 <= r < s.n && 0 <= c < s.n && F.M[r][c] != Unmarked
      ensures F.C[r][c] == 0
    {
      assert F.M[r][c] == Star;
      assert s.M[r][c] != Unmarked;
    }
    forall r | 0 <= r < s.n
      ensures RowHasStar(F, r) <==> RowHasStar(s, r) || r == r0
    {
      NewStarRows(s, time, r0, c0, path, r);
      if RowHasStar(F, r) {
        var c :| 0 <= c < s.n && F.M[r][c] == Star;
        assert NewStar(s, path, r, c);
      }
      if RowHasStar(s, r) || r == r0 {
        var c :| 0 <= c < s.n && NewStar(s, path, r, c);
        assert F.M[r][c] == Star;
      }
    }
    assert StarredRows(F) == StarredRows(s)[r0 := true];
    CountTrueRaise(StarredRows(s), r0);
  }
}

/** The public face of the solver (MunkresSolver.MunkresAssignment): a
    rectangular matrix of floating costs is scaled to integers, padded to a
    square, solved by the Hungarian method, and the starred cells inside the
    original rectangle are returned in row-major order. */
module Munkres {
  import opened Common
  import opened MunkresDefs
  import opened MunkresOptimal
  import opened MunkresRun

  /** Costs are mapped to integers by multiplying by 2^16 and truncating. */
  const Scale: real := 65536.0

  /** int.MinValue, the starting value of the padding scan. */
  const IntMin: int := -2147483648

  function Quantize(x: real): int {
    Trunc(x * Scale)
  }

  /** A rows-by-cols matrix (C#'s float[rows, cols]). */
  ghost predicate IsMatrix<T>(m: seq<seq<T>>, rows: nat, cols: nat) {
    |m| == rows && forall r :: 0 <= r < rows ==> |m[r]| == cols
  }

  function QuantizeMatrix(m: seq<seq<real>>): (q: seq<seq<int>>)
    ensures |q| == |m| && forall r :: 0 <= r < |m| ==> |q[r]| == |m[r]|
    ensures forall r, c :: 0 <= r < |m| && 0 <= c < |m[r]| ==> q[r][c] == Quantize(m[r][c])
  {
    seq(|m|, r requires 0 <= r < |m| => seq(|m[r]|, c requires 0 <= c < |m[r]| => Quantize(m[r][c])))
  }

  /** The entries of a matrix in row-major order, the order the padding scan
      visits them. */
  function Entries(m: seq<seq<real>>): (xs: seq<real>)
    ensures forall r, c :: 0 <= r < |m| && 0 <= c < |m[r]| ==> m[r][c] in xs
    ensures forall x :: x in xs ==> exists r, c :: 0 <= r < |m| && 0 <= c < |m[r]| && m[r][c] == x
  {
    if |m| == 0 then [] else Entries(m[..|m| - 1]) + m[|m| - 1]
  }

  // ---------------------------------------------------------------------------
  // The padding value.

  /** The scan as the program writes it: each raw entry is compared with the
      scaled maximum found so far, and only a winner is scaled. */
  function ScanAsWritten(xs: seq<real>, acc: int): int {
    if |xs| == 0 then acc
    else ScanAsWritten(xs[1..], if xs[0] > acc as real then Quantize(xs[0]) else acc)
  }

  function PadValueAsWritten(m: seq<seq<real>>): int {
    ScanAsWritten(Entries(m), IntMin)
  }

  /** The scan as its comment intends: the largest scaled entry. */
  function ScanMax(xs: seq<real>, acc: int): (p: int)
    ensures p >= acc
    ensures forall i :: 0 <= i < |xs| ==> Quantize(xs[i]) <= p
    ensures p == acc || exists i :: 0 <= i < |xs| && Quantize(xs[i]) == p
  {
    if |xs| == 0 then acc
    else
      var p := ScanMax(xs[1..], if Quantize(xs[0]) > acc then Quantize(xs[0]) else acc);
      assert forall i :: 1 <= i < |xs| ==> xs[i] == xs[1..][i - 1];
      p
  }

  /** The padding value: the largest scaled entry of the matrix, or
      int.MinValue when it has none. */
  function PadValue(m: seq<seq<real>>): (p: int)
    ensures p >= IntMin
    ensures forall r, c :: 0 <= r < |m| && 0 <= c < |m[r]| ==> Quantize(m[r][c]) <= p
    ensures p == IntMin || exists r, c :: 0 <= r < |m| && 0 <= c < |m[r]| && Quantize(m[r][c]) == p
  {
    var xs := Entries(m);
    var p := ScanMax(xs, IntMin);
    assert forall x :: x in xs ==> Quantize(x) <= p;
    p
  }

  /** The program's scan stops scaling as soon as the scaled maximum exceeds
      the raw entries: for the single row [1, 2] it pads with the scaled 1,
      not the scaled 2. */
  lemma PadValueAsWrittenMissesMax()
    ensures PadValueAsWritten([[1.0, 2.0]]) == 65536
    ensures PadValue([[1.0, 2.0]]) == 131072
  {
    var m := [[1.0, 2.0]];
    assert Entries(m) == [1.0, 2.0] by {
      assert m[..0] == [];
    }
    assert Quantize(1.0) == 65536 && Quantize(2.0) == 131072;
    assert ScanAsWritten([1.0, 2.0], IntMin) == ScanAsWritten([2.0], 65536);
    assert [2.0][1..] == [];
    assert [1.0, 2.0][1..] == [2.0];
    assert ScanMax([1.0, 2.0], IntMin) == ScanMax([2.0], 65536);
  }

  /** The square matrix the solver works on: the scaled costs, with the rows
      or columns added to make it square filled with `pad`. */
  function Padded(q: seq<seq<int>>, rows: nat, cols: nat, pad: int): (P: seq<seq<int>>)
    requires IsMatrix(q, rows, cols)
    ensures Square(P, MaxI(rows, cols))
    ensures forall r, c :: 0 <= r < MaxI(rows, cols) && 0 <= c < MaxI(rows, cols) ==>
              P[r][c] == if r < rows && c < cols then q[r][c] else pad
  {
    var n := MaxI(rows, cols);
    seq(n, r requires 0 <= r < n => seq(n, c requires 0 <= c < n => if r < rows && c < cols then q[r][c] else pad))
  }

  /** Sets up the solver for a rows-by-cols cost matrix (InitMunkres): the
      padded, scaled costs, an empty mask and no covers. */
  method InitMunkres(m: seq<seq<real>>, rows: nat, cols: nat) returns (s: Solver)
    requires IsMatrix(m, rows, cols)
    ensures Fresh(s) && s.n == MaxI(rows, cols)
    ensures s.C == Padded(QuantizeMatrix(m), rows, cols, PadValue(m))
  {
    var n := MaxI(rows, cols);
    var maxValue := PadValue(m);
    var C: seq<seq<int>> := [];
    for r := 0 to n
      invariant |C| == r
      invariant forall i :: 0 <= i < r ==> C[i] == Padded(QuantizeMatrix(m), rows, cols, maxValue)[i]
    {
      var row := PaddedRow(m, rows, cols, maxValue, r);
      C := C + [row];
    }
    s := ResetMaskAndCovers(n, C);
  }

  /** Row r of the padded square: the scaled entries of row r of m, then
      `pad` (the inner loop of InitMunkres). */
  method PaddedRow(m: seq<seq<real>>, rows: nat, cols: nat, pad: int, r: nat) returns (row: seq<int>)
    requires IsMatrix(m, rows, cols) && r < MaxI(rows, cols)
    ensures row == Padded(QuantizeMatrix(m), rows, cols, pad)[r]
  {
    var n := MaxI(rows, cols);
    row := [];
    for c := 0 to n
      invariant |row| == c
      invariant forall j :: 0 <= j < c ==> row[j] == if r < rows && j < cols then Quantize(m[r][j]) else pad
    {
      if c >= cols || r >= rows {
        row := row + [pad];
      } else {
        row := row + [Quantize(m[r][c])];
      }
    }
    ghost var P := Padded(QuantizeMatrix(m), rows, cols, pad);
    assert forall j :: 0 <= j < n ==> row[j] == P[r][j];
  }

  /** A solver over C with nothing marked and nothing covered
      (resetMaskandCovers). */
  method ResetMaskAndCovers(n: nat, C: seq<seq<int>>) returns (s: Solver)
    requires Square(C, n)
    ensures Fresh(s) && s.n == n && s.C == C
  {
    var M: seq<seq<Mark>> := [];
    var rowCover: seq<bool> := [];
    for r := 0 to n
      invariant |M| == r && |rowCover| == r
      invariant forall i :: 0 <= i < r ==> !rowCover[i] && |M[i]| == n
      invariant forall i, c :: 0 <= i < r && 0 <= c < n ==> M[i][c] == Unmarked
    {
      rowCover := rowCover + [false];
      M := M + [seq(n, _ => Unmarked)];
    }
    var colCover := seq(n, _ => false);
    s := Solver(n, C, M, rowCover, colCover);
  }

  // ---------------------------------------------------------------------------
  // Reading the assignment off the mask.

  /** a comes strictly before b in row-major order. */
  predicate Before(a: Cell, b: Cell) {
    a.0 < b.0 || (a.0 == b.0 && a.1 < b.1)
  }

  ghost predicate RowMajor(P: seq<Cell>) {
    forall i, j :: 0 <= i < j < |P| ==> Before(P[i], P[j])
  }

  /** The starred cells of row r among its first c columns, left to right. */
  function RowStars(M: seq<seq<Mark>>, r: int, c: nat): (P: seq<Cell>)
    requires 0 <= r < |M| && c <= |M[r]|
    ensures forall i :: 0 <= i < |P| ==> P[i].0 == r && 0 <= P[i].1 < c && M[r][P[i].1] == Star
    ensures forall i, j :: 0 <= i < j < |P| ==> P[i].1 < P[j].1
  {
    if c == 0 then []
    else RowStars(M, r, c - 1) + (if M[r][c - 1] == Star then [(r, c - 1)] else [])
  }

  /** The starred cells of the first k rows and cols columns, row-major. */
  function RegionStars(M: seq<seq<Mark>>, k: nat, cols: nat): (P: seq<Cell>)
    requires k <= |M| && forall r :: 0 <= r < k ==> cols <= |M[r]|
    ensures forall i :: 0 <= i < |P| ==> 0 <= P[i].0 < k && 0 <= P[i].1 < cols && M[P[i].0][P[i].1] == Star
    ensures RowMajor(P)
  {
    if k == 0 then []
    else
      var A := RegionStars(M, k - 1, cols);
      var B := RowStars(M, k - 1, cols);
      assert forall i, j :: 0 <= i < |A| && 0 <= j < |B| ==> Before(A[i], B[j]);
      A + B
  }

  lemma {:induction false} RowStarsComplete(M: seq<seq<Mark>>, r: int, c: nat, j: int)
    requires 0 <= r < |M| && c <= |M[r]| && 0 <= j < c && M[r][j] == Star
    ensures (r, j) in RowStars(M, r, c)
  {
    if j < c - 1 {
      RowStarsComplete(M, r, c - 1, j);
    }
  }

  /** Every star of the region is listed. */
  lemma {:induction false} RegionStarsComplete(M: seq<seq<Mark>>, k: nat, cols: nat, r: int, c: int)
    requires k <= |M| && forall i :: 0 <= i < k ==> cols <= |M[i]|
    requires 0 <= r < k && 0 <= c < cols && M[r][c] == Star
    ensures (r, c) in RegionStars(M, k, cols)
  {
    var A := RegionStars(M, k - 1, cols);
    var B := RowStars(M, k - 1, cols);
    assert RegionStars(M, k, cols) == A + B;
    if r < k - 1 {
      RegionStarsComplete(M, k - 1, cols, r, c);
      assert (r, c) in A;
    } else {
      RowStarsComplete(M, r, cols, c);
      assert (r, c) in B;
    }
  }

  /** Lists the starred cells of the original rectangle in row-major order
      (GetAssignments). */
  method GetAssignments(s: Solver, rows: nat, cols: nat) returns (res: seq<Cell>)
    requires WellFormed(s) && rows <= s.n && cols <= s.n
    ensures res == RegionStars(s.M, rows, cols)
    ensures forall i :: 0 <= i < |res| ==> 0 <= res[i].0 < rows && 0 <= res[i].1 < cols
                                           && s.M[res[i].0][res[i].1] == Star
    ensures forall r, c :: 0 <= r < rows && 0 <= c < cols && s.M[r][c] == Star ==> (r, c) in res
    ensures RowMajor(res)
  {
    res := [];
    for r := 0 to rows
      invariant res == RegionStars(s.M, r, cols)
    {
      var row := ScanRow(s.M, r, cols);
      res := res + row;
    }
    RegionStarsAll(s.M, rows, cols);
  }

  /** The starred cells of row r among its first c columns, left to right
      (the inner loop of GetAssignments). */
  method ScanRow(M: seq<seq<Mark>>, r: int, c: nat) returns (row: seq<Cell>)
    requires 0 <= r < |M| && c <= |M[r]|
    ensures row == RowStars(M, r, c)
    ensures forall j :: 0 <= j < c && M[r][j] == Star ==> (r, j) in row
  {
    row := [];
    for j := 0 to c
      invariant row == RowStars(M, r, j)
    {
      if M[r][j] == Star {
        row := row + [(r, j)];
      }
    }
    forall j | 0 <= j < c && M[r][j] == Star
      ensures (r, j) in row
    {
      RowStarsComplete(M, r, c, j);
    }
  }

  /** Every star of the region is listed. */
  lemma RegionStarsAll(M: seq<seq<Mark>>, k: nat, cols: nat)
    requires k <= |M| && forall r :: 0 <= r < k ==> cols <= |M[r]|
    ensures forall r, c :: 0 <= r < k && 0 <= c < cols && M[r][c] == Star ==> (r, c) in RegionStars(M, k, cols)
  {
    forall r, c | 0 <= r < k && 0 <= c < cols && M[r][c] == Star
      ensures (r, c) in RegionStars(M, k, cols)
    {
      RegionStarsComplete(M, k, cols, r, c);
    }
  }

  /** With independent stars, the starred cells of a rectangle pair no row
      and no column twice. */
  lemma RegionPairing(s: Solver, rows: nat, cols: nat)
    requires WellFormed(s) && StarsIndependent(s) && rows <= s.n && cols <= s.n
    ensures IsPairing(RegionStars(s.M, rows, cols), rows, cols)
  {
    var P := RegionStars(s.M, rows, cols);
    forall i, j | 0 <= i < j < |P|
      ensures P[i].0 != P[j].0 && P[i].1 != P[j].1
    {
      assert Before(P[i], P[j]);
    }
  }

  /** When every row and every column of the padded square holds a star, the
      rectangle holds min(rows, cols) of them: the smaller side is entirely
      real, so each of its lines has its star inside the rectangle. */
  lemma RegionComplete(s: Solver, rows: nat, cols: nat)
    requires Finished(s) && s.n == MaxI(rows, cols)
    requires forall c :: 0 <= c < s.n ==> ColHasStar(s, c)
    ensures IsCompletePairing(RegionStars(s.M, rows, cols), rows, cols)
  {
    RegionPairing(s, rows, cols);
    if rows <= cols {
      RowsAllListed(s, rows, cols);
    } else {
      ColsAllListed(s, rows, cols);
    }
  }

  lemma RowsAllListed(s: Solver, rows: nat, cols: nat)
    requires WellFormed(s) && StarsIndependent(s) && s.n == cols && rows <= cols
    requires forall r :: 0 <= r < s.n ==> RowHasStar(s, r)
    ensures |RegionStars(s.M, rows, cols)| == rows
  {
    var P := RegionStars(s.M, rows, cols);
    RegionPairing(s, rows, cols);
    PairingRowsCols(P, rows, cols);
    forall r | 0 <= r < rows
      ensures r in Rows(P)
    {
      RowListed(s, rows, cols, r);
    }
    CoveringLength(Rows(P), rows);
  }

  lemma RowListed(s: Solver, rows: nat, cols: nat, r: int)
    requires WellFormed(s) && s.n == cols && 0 <= r < rows <= cols && RowHasStar(s, r)
    ensures r in Rows(RegionStars(s.M, rows, cols))
  {
    var P := RegionStars(s.M, rows, cols);
    var c := StarCol(s, r);
    RegionStarsComplete(s.M, rows, cols, r, c);
    var i :| 0 <= i < |P| && P[i] == (r, c);
    assert Rows(P)[i] == r;
  }

  lemma ColsAllListed(s: Solver, rows: nat, cols: nat)
    requires WellFormed(s) && StarsIndependent(s) && s.n == rows && cols <= rows
    requires forall c :: 0 <= c < s.n ==> ColHasStar(s, c)
    ensures |RegionStars(s.M, rows, cols)| == cols
  {
    var P := RegionStars(s.M, rows, cols);
    RegionPairing(s, rows, cols);
    PairingRowsCols(P, rows, cols);
    forall c | 0 <= c < cols
      ensures c in Cols(P)
    {
      ColListed(s, rows, cols, c);
    }
    CoveringLength(Cols(P), cols);
  }

  lemma ColListed(s: Solver, rows: nat, cols: nat, c: int)
    requires WellFormed(s) && s.n == rows && 0 <= c < cols <= rows && ColHasStar(s, c)
    ensures c in Cols(RegionStars(s.M, rows, cols))
  {
    var P := RegionStars(s.M, rows, cols);
    var r := StarRow(s, c);
    RegionStarsComplete(s.M, rows, cols, r, c);
    var i :| 0 <= i < |P| && P[i] == (r, c);
    assert Cols(P)[i] == c;
  }

  // ---------------------------------------------------------------------------
  // Costs in the padded square against costs in the rectangle.

  lemma {:induction false} PairCostAgree(A: seq<seq<int>>, B: seq<seq<int>>, P: seq<Cell>)
    requires Indexes(A, P) && Indexes(B, P)
    requires forall i :: 0 <= i < |P| ==> A[P[i].0][P[i].1] == B[P[i].0][P[i].1]
    ensures PairCost(A, P) == PairCost(B, P)
  {
    if |P| > 0 {
      PairCostAgree(A, B, P[..|P| - 1]);
    }
  }

  /** A row with a single star: its stars among the first c columns. */
  lemma {:induction false} RowStarsSingle(M: seq<seq<Mark>>, r: int, c: nat, sc: int)
    requires 0 <= r < |M| && c <= |M[r]| && 0 <= sc < |M[r]| && M[r][sc] == Star
    requires forall j :: 0 <= j < |M[r]| && M[r][j] == Star ==> j == sc
    ensures RowStars(M, r, c) == if sc < c then [(r, sc)] else []
  {
    if c > 0 {
      RowStarsSingle(M, r, c - 1, sc);
    }
  }

  /** Each row holds its star in exactly one column. */
  ghost predicate OneStarPerRow(s: Solver)
    requires WellFormed(s) && forall r :: 0 <= r < s.n ==> RowHasStar(s, r)
  {
    forall r, c :: 0 <= r < s.n && 0 <= c < s.n && s.M[r][c] == Star ==> c == StarCol(s, r)
  }

  lemma IndependentOneStar(s: Solver)
    requires WellFormed(s) && StarsIndependent(s) && forall r :: 0 <= r < s.n ==> RowHasStar(s, r)
    ensures OneStarPerRow(s)
  {
    forall r, c | 0 <= r < s.n && 0 <= c < s.n && s.M[r][c] == Star
      ensures c == StarCol(s, r)
    {
      assert s.M[r][StarCol(s, r)] == Star;
    }
  }

  /** `count` copies of `pad`, added up. */
  function Pads(count: int, pad: int): (t: int)
    decreases count
  {
    if count <= 0 then 0 else Pads(count - 1, pad) + pad
  }

  lemma {:induction false} PadsTimes(count: nat, pad: int)
    ensures Pads(count, pad) == count * pad
  {
    if count > 0 {
      PadsTimes(count - 1, pad);
    }
  }
  /** What a partial assignment P costs in q when each of the n - |P| cells
      that complete it to an n-by-n assignment costs `pad`. */
  function PaddedCost(q: seq<seq<int>>, P: seq<Cell>, n: int, pad: int): int
    requires Indexes(q, P)
  {
    PairCost(q, P) + Pads(n - |P|, pad)
  }


  lemma PairCostSnoc(C: seq<seq<int>>, X: seq<Cell>, c: Cell)
    requires Indexes(C, X) && 0 <= c.0 < |C| && 0 <= c.1 < |C[c.0]|
    ensures Indexes(C, X + [c])
    ensures PairCost(C, X + [c]) == PairCost(C, X) + C[c.0][c.1]
  {
    assert (X + [c])[..|X|] == X;
  }

  /** What the stars of the first k rows cost in P, added row by row. */
  ghost function StarCostUpTo(s: Solver, P: seq<seq<int>>, k: nat): int
    requires WellFormed(s) && (forall r :: 0 <= r < s.n ==> RowHasStar(s, r))
    requires Square(P, s.n) && k <= s.n
  {
    if k == 0 then 0 else StarCostUpTo(s, P, k - 1) + P[k - 1][StarCol(s, k - 1)]
  }

  lemma {:induction false} StarCostUpToPairCost(s: Solver, P: seq<seq<int>>, k: nat)
    requires WellFormed(s) && (forall r :: 0 <= r < s.n ==> RowHasStar(s, r))
    requires Square(P, s.n) && k <= s.n
    ensures Indexes(P, AllStars(s)[..k])
    ensures PairCost(P, AllStars(s)[..k]) == StarCostUpTo(s, P, k)
  {
    var A := AllStars(s);
    if k > 0 {
      StarCostUpToPairCost(s, P, k - 1);
      assert A[..k][..k - 1] == A[..k - 1];
      assert A[..k][k - 1] == (k - 1, StarCol(s, k - 1));
    }
  }

  /** Whether the star of row r lies inside the rows-by-cols rectangle. */
  ghost predicate Inside(s: Solver, rows: nat, cols: nat, r: nat)
    requires WellFormed(s) && (forall i :: 0 <= i < s.n ==> RowHasStar(s, i)) && r < s.n
  {
    r < rows && StarCol(s, r) < cols
  }

  /** What the stars of the first k rows that lie inside the rectangle cost
      in the scaled matrix. */
  ghost function InsideCost(s: Solver, q: seq<seq<int>>, rows: nat, cols: nat, k: nat): int
    requires WellFormed(s) && (forall r :: 0 <= r < s.n ==> RowHasStar(s, r))
    requires s.n == MaxI(rows, cols) && IsMatrix(q, rows, cols) && k <= s.n
  {
    if k == 0 then 0
    else InsideCost(s, q, rows, cols, k - 1) + (if Inside(s, rows, cols, k - 1) then q[k - 1][StarCol(s, k - 1)] else 0)
  }

  /** How many of the first k rows have their star inside the rectangle. */
  ghost function InsideCount(s: Solver, rows: nat, cols: nat, k: nat): (t: nat)
    requires WellFormed(s) && (forall r :: 0 <= r < s.n ==> RowHasStar(s, r)) && k <= s.n
    ensures t <= k
  {
    if k == 0 then 0
    else InsideCount(s, rows, cols, k - 1) + (if Inside(s, rows, cols, k - 1) then 1 else 0)
  }

  /** The first k stars cost, in the padded matrix, what those inside the
      rectangle cost in the scaled matrix, plus `pad` for each of the
      others. */
  lemma {:induction false} PaddedCostSplit(s: Solver, q: seq<seq<int>>, rows: nat, cols: nat, pad: int, k: nat)
    requires WellFormed(s) && (forall r :: 0 <= r < s.n ==> RowHasStar(s, r))
    requires s.n == MaxI(rows, cols) && IsMatrix(q, rows, cols) && k <= s.n
    ensures StarCostUpTo(s, Padded(q, rows, cols, pad), k)
            == InsideCost(s, q, rows, cols, k) + Pads(k - InsideCount(s, rows, cols, k), pad)
  {
    if k > 0 {
      var j := k - 1;
      PaddedCostSplit(s, q, rows, cols, pad, j);
      var x, inside := PaddedStep(s, q, rows, cols, pad, j, k);
      if !inside {
        assert k - InsideCount(s, rows, cols, k) == j - InsideCount(s, rows, cols, j) + 1;
      }
    }
  }

  /** The stars of the rectangle among its first k rows are those of the
      first k stars that lie inside it: as many, and as costly. */
  lemma {:induction false} RegionCountSplit(s: Solver, q: seq<seq<int>>, rows: nat, cols: nat, k: nat)
    requires WellFormed(s) && (forall r :: 0 <= r < s.n ==> RowHasStar(s, r)) && OneStarPerRow(s)
    requires s.n == MaxI(rows, cols) && IsMatrix(q, rows, cols) && k <= s.n
    ensures |RegionStars(s.M, MinI(k, rows), cols)| == InsideCount(s, rows, cols, k)
  {
    if k > 0 {
      var j := k - 1;
      RegionCountSplit(s, q, rows, cols, j);
      RegionCountStep(s, rows, cols, j, k);
    }
  }

  lemma {:induction false} RegionCostSplit(s: Solver, q: seq<seq<int>>, rows: nat, cols: nat, k: nat)
    requires WellFormed(s) && (forall r :: 0 <= r < s.n ==> RowHasStar(s, r)) && OneStarPerRow(s)
    requires s.n == MaxI(rows, cols) && IsMatrix(q, rows, cols) && k <= s.n
    ensures Indexes(q, RegionStars(s.M, MinI(k, rows), cols))
    ensures PairCost(q, RegionStars(s.M, MinI(k, rows), cols)) == InsideCost(s, q, rows, cols, k)
  {
    if k > 0 {
      var j := k - 1;
      RegionCostSplit(s, q, rows, cols, j);
      RegionCostStep(s, q, rows, cols, j, k);
    }
  }

  /** The star of row j costs its scaled entry in the padded matrix when it
      lies inside the rectangle, and `pad` otherwise. */
  lemma PaddedStep(s: Solver, q: seq<seq<int>>, rows: nat, cols: nat, pad: int, j: nat, k: nat)
    returns (x: int, inside: bool)
    requires WellFormed(s) && forall r :: 0 <= r < s.n ==> RowHasStar(s, r)
    requires s.n == MaxI(rows, cols) && IsMatrix(q, rows, cols) && k == j + 1 <= s.n
    ensures StarCostUpTo(s, Padded(q, rows, cols, pad), k)
            == StarCostUpTo(s, Padded(q, rows, cols, pad), j) + x
    ensures inside == Inside(s, rows, cols, j)
    ensures inside ==> x == q[j][StarCol(s, j)]
    ensures !inside ==> x == pad
  {
    inside := Inside(s, rows, cols, j);
    x := Padded(q, rows, cols, pad)[j][StarCol(s, j)];
  }

  /** The stars of the rectangle are cells of the scaled matrix. */
  lemma RegionIndexes(M: seq<seq<Mark>>, q: seq<seq<int>>, rows: nat, cols: nat, k: nat)
    requires IsMatrix(q, rows, cols) && k <= rows <= |M| && forall r :: 0 <= r < k ==> cols <= |M[r]|
    ensures Indexes(q, RegionStars(M, k, cols))
  {
  }

  /** Row j adds its star to the stars of the rectangle exactly when the star
      lies inside it. */
  lemma RegionStep(s: Solver, rows: nat, cols: nat, j: nat, k: nat)
    requires WellFormed(s) && (forall r :: 0 <= r < s.n ==> RowHasStar(s, r)) && OneStarPerRow(s)
    requires s.n == MaxI(rows, cols) && k == j + 1 <= s.n
    ensures Inside(s, rows, cols, j) ==>
              RegionStars(s.M, MinI(k, rows), cols) == RegionStars(s.M, MinI(j, rows), cols) + [(j, StarCol(s, j))]
    ensures !Inside(s, rows, cols, j) ==>
              RegionStars(s.M, MinI(k, rows), cols) == RegionStars(s.M, MinI(j, rows), cols)
  {
    var sc := StarCol(s, j);
    var R := RegionStars(s.M, MinI(j, rows), cols);
    if j < rows {
      RowStarsSingle(s.M, j, cols, sc);
      assert RegionStars(s.M, k, cols) == R + RowStars(s.M, j, cols);
    }
  }

  lemma RegionCountStep(s: Solver, rows: nat, cols: nat, j: nat, k: nat)
    requires WellFormed(s) && (forall r :: 0 <= r < s.n ==> RowHasStar(s, r)) && OneStarPerRow(s)
    requires s.n == MaxI(rows, cols) && k == j + 1 <= s.n
    ensures |RegionStars(s.M, MinI(k, rows), cols)|
            == |RegionStars(s.M, MinI(j, rows), cols)| + (if Inside(s, rows, cols, j) then 1 else 0)
  {
    RegionStep(s, rows, cols, j, k);
  }

  lemma RegionCostStep(s: Solver, q: seq<seq<int>>, rows: nat, cols: nat, j: nat, k: nat)
    requires WellFormed(s) && (forall r :: 0 <= r < s.n ==> RowHasStar(s, r)) && OneStarPerRow(s)
    requires s.n == MaxI(rows, cols) && IsMatrix(q, rows, cols) && k == j + 1 <= s.n
    requires Indexes(q, RegionStars(s.M, MinI(j, rows), cols))
    requires PairCost(q, RegionStars(s.M, MinI(j, rows), cols)) == InsideCost(s, q, rows, cols, j)
    ensures Indexes(q, RegionStars(s.M, MinI(k, rows), cols))
    ensures PairCost(q, RegionStars(s.M, MinI(k, rows), cols)) == InsideCost(s, q, rows, cols, k)
  {
    RegionCostDelta(s, q, rows, cols, j, k);
  }

  lemma RegionCostDelta(s: Solver, q: seq<seq<int>>, rows: nat, cols: nat, j: nat, k: nat)
    requires WellFormed(s) && (forall r :: 0 <= r < s.n ==> RowHasStar(s, r)) && OneStarPerRow(s)
    requires s.n == MaxI(rows, cols) && IsMatrix(q, rows, cols) && k == j + 1 <= s.n
    requires Indexes(q, RegionStars(s.M, MinI(j, rows), cols))
    ensures Indexes(q, RegionStars(s.M, MinI(k, rows), cols))
    ensures PairCost(q, RegionStars(s.M, MinI(k, rows), cols))
            == PairCost(q, RegionStars(s.M, MinI(j, rows), cols))
               + (if Inside(s, rows, cols, j) then q[j][StarCol(s, j)] else 0)
  {
    RegionStep(s, rows, cols, j, k);
    if Inside(s, rows, cols, j) {
      PairCostSnoc(q, RegionStars(s.M, MinI(j, rows), cols), (j, StarCol(s, j)));
    }
  }

  /** The stars of the finished square cost, in the padded matrix, what the
      stars of the rectangle cost in the scaled matrix, plus `pad` for each
      of the others. */
  lemma StarsCost(s: Solver, q: seq<seq<int>>, rows: nat, cols: nat, pad: int)
    requires WellFormed(s) && (forall r :: 0 <= r < s.n ==> RowHasStar(s, r)) && OneStarPerRow(s)
    requires s.n == MaxI(rows, cols) && IsMatrix(q, rows, cols)
    ensures Indexes(q, RegionStars(s.M, rows, cols))
    ensures Indexes(Padded(q, rows, cols, pad), AllStars(s))
    ensures PairCost(Padded(q, rows, cols, pad), AllStars(s))
            == PaddedCost(q, RegionStars(s.M, rows, cols), s.n, pad)
  {
    AllStarsCost(s, Padded(q, rows, cols, pad));
    StarsCostRows(s, q, rows, cols, pad);
  }

  lemma AllStarsCost(s: Solver, P: seq<seq<int>>)
    requires WellFormed(s) && (forall r :: 0 <= r < s.n ==> RowHasStar(s, r)) && Square(P, s.n)
    ensures Indexes(P, AllStars(s))
    ensures PairCost(P, AllStars(s)) == StarCostUpTo(s, P, s.n)
  {
    StarCostUpToPairCost(s, P, s.n);
    assert AllStars(s)[..s.n] == AllStars(s);
  }

  lemma StarsCostRows(s: Solver, q: seq<seq<int>>, rows: nat, cols: nat, pad: int)
    requires WellFormed(s) && (forall r :: 0 <= r < s.n ==> RowHasStar(s, r)) && OneStarPerRow(s)
    requires s.n == MaxI(rows, cols) && IsMatrix(q, rows, cols)
    ensures Indexes(q, RegionStars(s.M, rows, cols))
    ensures StarCostUpTo(s, Padded(q, rows, cols, pad), s.n)
            == PaddedCost(q, RegionStars(s.M, rows, cols), s.n, pad)
  {
    var R := RegionStars(s.M, rows, cols);
    assert MinI(s.n, rows) == rows;
    PaddedCostSplit(s, q, rows, cols, pad, s.n);
    RegionCountSplit(s, q, rows, cols, s.n);
    RegionCostSplit(s, q, rows, cols, s.n);
    var outside := s.n - InsideCount(s, rows, cols, s.n);
    assert s.n - |R| == outside;
    assert PaddedCost(q, R, s.n, pad) == PairCost(q, R) + Pads(outside, pad);
  }

  /** A complete rectangular assignment Q followed by cells Z in rows and
      columns Q leaves free costs, in the padded square, what Q costs in the
      scaled matrix plus `pad` for each cell of Z: a complete Q leaves no
      free row or no free column inside the rectangle. */
  lemma CompletionCost(q: seq<seq<int>>, rows: nat, cols: nat, pad: int, Q: seq<Cell>, Z: seq<Cell>)
    requires IsMatrix(q, rows, cols) && IsCompletePairing(Q, rows, cols)
    requires |Q| + |Z| == MaxI(rows, cols)
    requires forall i :: 0 <= i < |Z| ==>
               0 <= Z[i].0 < MaxI(rows, cols) && 0 <= Z[i].1 < MaxI(rows, cols)
               && Z[i].0 !in Rows(Q) && Z[i].1 !in Cols(Q)
    ensures Indexes(q, Q) && Indexes(Padded(q, rows, cols, pad), Q + Z)
    ensures PairCost(Padded(q, rows, cols, pad), Q + Z) == PaddedCost(q, Q, MaxI(rows, cols), pad)
  {
    TailOutside(Q, rows, cols, Z);
    OutsideCost(q, rows, cols, pad, Z, |Q|);
    InnerCostSame(q, rows, cols, pad, Q);
    PairCostAppend(Padded(q, rows, cols, pad), Q, Z);
  }

  /** Cells in rows and columns a complete assignment leaves free lie
      outside the rectangle. */
  lemma TailOutside(Q: seq<Cell>, rows: nat, cols: nat, Z: seq<Cell>)
    requires IsCompletePairing(Q, rows, cols)
    requires forall i :: 0 <= i < |Z| ==> 0 <= Z[i].0 && 0 <= Z[i].1 && Z[i].0 !in Rows(Q) && Z[i].1 !in Cols(Q)
    ensures forall i :: 0 <= i < |Z| ==> !(Z[i].0 < rows && Z[i].1 < cols)
  {
    CompleteUsesShortSide(Q, rows, cols);
    forall i | 0 <= i < |Z|
      ensures !(Z[i].0 < rows && Z[i].1 < cols)
    {
    }
  }

  /** A complete assignment uses every row of a wide matrix and every
      column of a tall one. */
  lemma CompleteUsesShortSide(Q: seq<Cell>, rows: nat, cols: nat)
    requires IsCompletePairing(Q, rows, cols)
    ensures rows <= cols ==> forall r :: 0 <= r < rows ==> r in Rows(Q)
    ensures cols < rows ==> forall c :: 0 <= c < cols ==> c in Cols(Q)
  {
    if rows <= cols {
      Pigeonhole(Rows(Q), rows);
    } else {
      Pigeonhole(Cols(Q), cols);
    }
  }

  /** Cells outside the rectangle cost `pad` apiece in the padded square;
      k + |Z| cells in all cost `pad` for each of the last |Z|. */
  lemma OutsideCost(q: seq<seq<int>>, rows: nat, cols: nat, pad: int, Z: seq<Cell>, k: nat)
    requires IsMatrix(q, rows, cols) && k + |Z| == MaxI(rows, cols)
    requires forall i :: 0 <= i < |Z| ==>
               0 <= Z[i].0 < MaxI(rows, cols) && 0 <= Z[i].1 < MaxI(rows, cols)
               && !(Z[i].0 < rows && Z[i].1 < cols)
    ensures Indexes(Padded(q, rows, cols, pad), Z)
    ensures PairCost(Padded(q, rows, cols, pad), Z) == Pads(MaxI(rows, cols) - k, pad)
  {
    var P := Padded(q, rows, cols, pad);
    forall i | 0 <= i < |Z|
      ensures P[Z[i].0][Z[i].1] == pad
    {
    }
    PairCostConst(P, Z, pad);
    PadsTimes(MaxI(rows, cols) - k, pad);
  }

  /** Cells inside the rectangle cost the same in the padded square. */
  lemma InnerCostSame(q: seq<seq<int>>, rows: nat, cols: nat, pad: int, Q: seq<Cell>)
    requires IsMatrix(q, rows, cols) && IsPairing(Q, rows, cols)
    ensures Indexes(q, Q) && Indexes(Padded(q, rows, cols, pad), Q)
    ensures PairCost(Padded(q, rows, cols, pad), Q) == PairCost(q, Q)
  {
    PairCostAgree(Padded(q, rows, cols, pad), q, Q);
  }

  /** Solves the assignment problem for a rows-by-cols cost matrix
      (MunkresAssignment): the result pairs min(rows, cols) rows with as many
      columns, none twice, lists them in row-major order, and no other such
      pairing costs less in the scaled costs. */
  method MunkresAssignment(m: seq<seq<real>>, rows: nat, cols: nat) returns (res: seq<Cell>)
    requires IsMatrix(m, rows, cols)
    ensures IsCompletePairing(res, rows, cols)
    ensures RowMajor(res)
    ensures Indexes(QuantizeMatrix(m), res)
    ensures forall Q :: IsCompletePairing(Q, rows, cols) ==>
              Indexes(QuantizeMatrix(m), Q) && PairCost(QuantizeMatrix(m), res) <= PairCost(QuantizeMatrix(m), Q)
  {
    var s0 := InitMunkres(m, rows, cols);
    var s := RunMunkres(s0);
    res := GetAssignments(s, rows, cols);
    RegionComplete(s, rows, cols);
    IndependentOneStar(s);
    AssignmentOptimal(s, QuantizeMatrix(m), rows, cols, PadValue(m), PairCost(s0.C, AllStars(s)));
  }

  /** The stars inside the rectangle are a cheapest complete assignment:
      any other, completed with padding cells, costs in the padded square no
      less than the stars, and both pay the same padding. */
  lemma AssignmentOptimal(s: Solver, q: seq<seq<int>>, rows: nat, cols: nat, pad: int, bound: int)
    requires IsMatrix(q, rows, cols) && s.n == MaxI(rows, cols)
    requires WellFormed(s) && (forall r :: 0 <= r < s.n ==> RowHasStar(s, r)) && OneStarPerRow(s)
    requires Indexes(Padded(q, rows, cols, pad), AllStars(s))
    requires bound == PairCost(Padded(q, rows, cols, pad), AllStars(s))
    requires forall F :: IsPairing(F, s.n, s.n) && |F| == s.n ==> bound <= PairCost(Padded(q, rows, cols, pad), F)
    requires IsCompletePairing(RegionStars(s.M, rows, cols), rows, cols)
    ensures Indexes(q, RegionStars(s.M, rows, cols))
    ensures forall Q :: IsCompletePairing(Q, rows, cols) ==>
              Indexes(q, Q) && PairCost(q, RegionStars(s.M, rows, cols)) <= PairCost(q, Q)
  {
    StarsCost(s, q, rows, cols, pad);
    CompletionsBound(q, rows, cols, pad, s.n, bound);
    RectangleOptimal(q, rows, cols, pad, RegionStars(s.M, rows, cols), s.n, bound);
  }

  /** A complete rectangular assignment R is a cheapest one when what it
      costs plus the padding its completion pays is a lower bound on what
      every other one costs plus the same padding. */
  lemma RectangleOptimal(q: seq<seq<int>>, rows: nat, cols: nat, pad: int, R: seq<Cell>, n: nat, bound: int)
    requires IsCompletePairing(R, rows, cols) && Indexes(q, R)
    requires bound == PaddedCost(q, R, n, pad)
    requires forall Q :: IsCompletePairing(Q, rows, cols) ==>
               Indexes(q, Q) && bound <= PaddedCost(q, Q, n, pad)
    ensures forall Q :: IsCompletePairing(Q, rows, cols) ==> Indexes(q, Q) && PairCost(q, R) <= PairCost(q, Q)
  {
    forall Q | IsCompletePairing(Q, rows, cols)
      ensures Indexes(q, Q) && PairCost(q, R) <= PairCost(q, Q)
    {
      assert |R| == |Q|;
    }
  }

  /** A lower bound on every complete assignment of the padded square is a
      lower bound on every complete rectangular assignment plus the padding
      its completion pays. */
  lemma CompletionsBound(q: seq<seq<int>>, rows: nat, cols: nat, pad: int, n: nat, bound: int)
    requires IsMatrix(q, rows, cols) && n == MaxI(rows, cols)
    requires forall F :: IsPairing(F, n, n) && |F| == n ==> bound <= PairCost(Padded(q, rows, cols, pad), F)
    ensures forall Q :: IsCompletePairing(Q, rows, cols) ==>
              Indexes(q, Q) && bound <= PaddedCost(q, Q, n, pad)
  {
    forall Q | IsCompletePairing(Q, rows, cols)
      ensures Indexes(q, Q) && bound <= PaddedCost(q, Q, n, pad)
    {
      CompletionBound(q, rows, cols, pad, Q, bound);
    }
  }

  /** A lower bound on the cost of every complete assignment of the padded
      square bounds what a complete rectangular assignment costs in the
      scaled matrix plus the padding its completion pays. */
  lemma CompletionBound(q: seq<seq<int>>, rows: nat, cols: nat, pad: int, Q: seq<Cell>, bound: int)
    requires IsMatrix(q, rows, cols) && IsCompletePairing(Q, rows, cols)
    requires forall F :: IsPairing(F, MaxI(rows, cols), MaxI(rows, cols)) && |F| == MaxI(rows, cols)
               ==> bound <= PairCost(Padded(q, rows, cols, pad), F)
    ensures Indexes(q, Q)
    ensures bound <= PaddedCost(q, Q, MaxI(rows, cols), pad)
  {
    var Z := Completion(Q, MaxI(rows, cols));
    CompletionCost(q, rows, cols, pad, Q, Z);
  }

  /** On the matrix [[1, 2], [2, 1]] the contract of MunkresAssignment admits
      only the diagonal. */
  lemma DiagonalExample(res: seq<Cell>)
    requires IsCompletePairing(res, 2, 2) && RowMajor(res)
    requires forall Q :: IsCompletePairing(Q, 2, 2) ==>
               Indexes(QuantizeMatrix([[1.0, 2.0], [2.0, 1.0]]), Q)
               && Indexes(QuantizeMatrix([[1.0, 2.0], [2.0, 1.0]]), res)
               && PairCost(QuantizeMatrix([[1.0, 2.0], [2.0, 1.0]]), res)
                  <= PairCost(QuantizeMatrix([[1.0, 2.0], [2.0, 1.0]]), Q)
    ensures res == [(0, 0), (1, 1)]
  {
    QuantizeExample();
    TwoByTwoRowMajor(res);
    var diag := [(0, 0), (1, 1)];
    assert IsCompletePairing(diag, 2, 2);
    DiagonalCheapest(res);
  }

  lemma QuantizeExample()
    ensures QuantizeMatrix([[1.0, 2.0], [2.0, 1.0]]) == [[65536, 131072], [131072, 65536]]
  {
    var q := QuantizeMatrix([[1.0, 2.0], [2.0, 1.0]]);
    assert Quantize(1.0) == 65536 && Quantize(2.0) == 131072;
    assert q[0] == [65536, 131072] && q[1] == [131072, 65536];
  }

  /** In [[65536, 131072], [131072, 65536]] the anti-diagonal costs more
      than the diagonal. */
  lemma DiagonalCheapest(res: seq<Cell>)
    requires res == [(0, 0), (1, 1)] || res == [(0, 1), (1, 0)]
    requires PairCost([[65536, 131072], [131072, 65536]], res)
             <= PairCost([[65536, 131072], [131072, 65536]], [(0, 0), (1, 1)])
    ensures res == [(0, 0), (1, 1)]
  {
    var q := [[65536, 131072], [131072, 65536]];
    TwoCellCost(q, (0, 0), (1, 1));
    TwoCellCost(q, (0, 1), (1, 0));
  }

  /** The two complete assignments of a 2-by-2 matrix, in row-major order. */
  lemma TwoByTwoRowMajor(P: seq<Cell>)
    requires IsCompletePairing(P, 2, 2) && RowMajor(P)
    ensures P == [(0, 0), (1, 1)] || P == [(0, 1), (1, 0)]
  {
    assert Before(P[0], P[1]);
  }

  lemma TwoCellCost(C: seq<seq<int>>, a: Cell, b: Cell)
    requires 0 <= a.0 < |C| && 0 <= a.1 < |C[a.0]| && 0 <= b.0 < |C| && 0 <= b.1 < |C[b.0]|
    ensures Indexes(C, [a, b])
    ensures PairCost(C, [a, b]) == C[a.0][a.1] + C[b.0][b.1]
  {
    assert [a, b][..1] == [a];
    assert [a][..0] == [];
    assert PairCost(C, [a]) == C[a.0][a.1];
  }

}

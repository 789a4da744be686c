/** Why the stars the Hungarian method ends with form a cheapest assignment.
    The solver only ever subtracts a row value from a whole row or a column
    value from a whole column, so the original costs stay the reduced costs
    plus a row potential u and a column potential v. Every complete
    assignment pays each potential exactly once, so its original cost is its
    reduced cost plus sum(u) + sum(v); reduced costs are never negative and
    the stars sit on reduced zeros, so no assignment is cheaper. */
module MunkresOptimal {
  import opened MunkresDefs

  function SumI(s: seq<int>): int {
    if |s| == 0 then 0 else SumI(s[..|s| - 1]) + s[|s| - 1]
  }

  ghost predicate InRange(f: seq<int>, n: int) {
    forall i :: 0 <= i < |f| ==> 0 <= f[i] < n
  }

  ghost predicate Distinct(f: seq<int>) {
    forall i, j :: 0 <= i < j < |f| ==> f[i] != f[j]
  }

  /** v[f[0]] + v[f[1]] + ... */
  function SumAt(v: seq<int>, f: seq<int>): int
    requires InRange(f, |v|)
  {
    if |f| == 0 then 0 else SumAt(v, f[..|f| - 1]) + v[f[|f| - 1]]
  }

  /** Taking one index out of the sum. */
  lemma {:induction false} SumAtRemove(v: seq<int>, f: seq<int>, k: int)
    requires InRange(f, |v|) && 0 <= k < |f|
    ensures InRange(f[..k] + f[k + 1..], |v|)
    ensures SumAt(v, f) == SumAt(v, f[..k] + f[k + 1..]) + v[f[k]]
  {
    var h := f[..k] + f[k + 1..];
    assert forall i :: 0 <= i < |h| ==> h[i] == if i < k then f[i] else f[i + 1];
    if k < |f| - 1 {
      var g := f[..|f| - 1];
      SumAtRemove(v, g, k);
      assert h[..|h| - 1] == g[..k] + g[k + 1..];
      assert h[|h| - 1] == f[|f| - 1];
    } else {
      assert h == f[..|f| - 1];
    }
  }

  /** Summing v along a permutation of 0 .. n-1 sums every entry once. */
  lemma {:induction false} SumAtPerm(v: seq<int>, f: seq<int>)
    requires Distinct(f) && InRange(f, |f|) && |f| <= |v|
    ensures InRange(f, |v|)
    ensures SumAt(v, f) == SumI(v[..|f|])
  {
    var n := |f|;
    if n > 0 {
      Pigeonhole(f, n);
      assert n - 1 in f;
      var k :| 0 <= k < n && f[k] == n - 1;
      var g := f[..k] + f[k + 1..];
      RemoveLargest(f, k);
      SumAtPerm(v, g);
      SumAtRemove(v, f, k);
      assert v[..n][..n - 1] == v[..n - 1];
    }
  }

  /** Taking the largest index out of a permutation of 0 .. n-1 leaves a
      permutation of 0 .. n-2. */
  lemma RemoveLargest(f: seq<int>, k: int)
    requires Distinct(f) && InRange(f, |f|) && 0 <= k < |f| && f[k] == |f| - 1
    ensures Distinct(f[..k] + f[k + 1..]) && InRange(f[..k] + f[k + 1..], |f| - 1)
  {
    var g := f[..k] + f[k + 1..];
    assert forall i :: 0 <= i < |g| ==> g[i] == if i < k then f[i] else f[i + 1];
    forall i | 0 <= i < |g|
      ensures 0 <= g[i] < |f| - 1
    {
      if i < k {
        assert f[i] != f[k];
      } else {
        assert f[i + 1] != f[k];
      }
    }
    forall i, j | 0 <= i < j < |g|
      ensures g[i] != g[j]
    {
      var i' := if i < k then i else i + 1;
      var j' := if j < k then j else j + 1;
      assert f[i'] != f[j'];
    }
  }

  /** The rows of a list of cells. */
  function Rows(P: seq<Cell>): (f: seq<int>)
    ensures |f| == |P| && forall i :: 0 <= i < |P| ==> f[i] == P[i].0
  {
    seq(|P|, i requires 0 <= i < |P| => P[i].0)
  }

  /** The columns of a list of cells. */
  function Cols(P: seq<Cell>): (f: seq<int>)
    ensures |f| == |P| && forall i :: 0 <= i < |P| ==> f[i] == P[i].1
  {
    seq(|P|, i requires 0 <= i < |P| => P[i].1)
  }

  /** A (partial) assignment of rows to columns in a rows-by-cols matrix: no
      row and no column is used twice. */
  ghost predicate IsPairing(P: seq<Cell>, rows: int, cols: int) {
    (forall i :: 0 <= i < |P| ==> 0 <= P[i].0 < rows && 0 <= P[i].1 < cols)
    && (forall i, j :: 0 <= i < j < |P| ==> P[i].0 != P[j].0 && P[i].1 != P[j].1)
  }

  lemma PairingRowsCols(P: seq<Cell>, rows: int, cols: int)
    requires IsPairing(P, rows, cols)
    ensures InRange(Rows(P), rows) && InRange(Cols(P), cols) && Distinct(Rows(P)) && Distinct(Cols(P))
  {
  }

  lemma RowsColsPairing(P: seq<Cell>, rows: int, cols: int)
    requires InRange(Rows(P), rows) && InRange(Cols(P), cols) && Distinct(Rows(P)) && Distinct(Cols(P))
    ensures IsPairing(P, rows, cols)
  {
    forall i, j | 0 <= i < j < |P|
      ensures P[i].0 != P[j].0 && P[i].1 != P[j].1
    {
      assert Rows(P)[i] != Rows(P)[j] && Cols(P)[i] != Cols(P)[j];
    }
  }

  /** An assignment that uses every row or every column, whichever is fewer. */
  ghost predicate IsCompletePairing(P: seq<Cell>, rows: int, cols: int) {
    IsPairing(P, rows, cols) && |P| == if rows < cols then rows else cols
  }

  ghost predicate Indexes(C: seq<seq<int>>, P: seq<Cell>) {
    forall i :: 0 <= i < |P| ==> 0 <= P[i].0 < |C| && 0 <= P[i].1 < |C[P[i].0]|
  }

  /** The total cost of the cells of P in C. */
  function PairCost(C: seq<seq<int>>, P: seq<Cell>): int
    requires Indexes(C, P)
  {
    if |P| == 0 then 0 else PairCost(C, P[..|P| - 1]) + C[P[|P| - 1].0][P[|P| - 1].1]
  }

  lemma {:induction false} PairCostAppend(C: seq<seq<int>>, A: seq<Cell>, B: seq<Cell>)
    requires Indexes(C, A) && Indexes(C, B)
    ensures Indexes(C, A + B)
    ensures PairCost(C, A + B) == PairCost(C, A) + PairCost(C, B)
  {
    if |B| > 0 {
      PairCostAppend(C, A, B[..|B| - 1]);
      assert (A + B)[..|A + B| - 1] == A + B[..|B| - 1];
    } else {
      assert A + B == A;
    }
  }

  /** With C0 = C + u + v cell by cell, the cost of P in C0 is its cost in C
      plus the potentials of its rows and of its columns. */
  lemma {:induction false} PairCostPotential(C0: seq<seq<int>>, C: seq<seq<int>>, u: seq<int>, v: seq<int>,
                                             P: seq<Cell>)
    requires Square(C0, |u|) && Square(C, |u|) && |v| == |u|
    requires InRange(Rows(P), |u|) && InRange(Cols(P), |u|)
    requires forall r, c :: 0 <= r < |u| && 0 <= c < |u| ==> C0[r][c] == C[r][c] + u[r] + v[c]
    ensures Indexes(C0, P) && Indexes(C, P)
    ensures PairCost(C0, P) == PairCost(C, P) + SumAt(u, Rows(P)) + SumAt(v, Cols(P))
  {
    if |P| > 0 {
      var Q := P[..|P| - 1];
      assert Rows(Q) == Rows(P)[..|P| - 1] && Cols(Q) == Cols(P)[..|P| - 1];
      PairCostPotential(C0, C, u, v, Q);
    }
  }

  lemma {:induction false} PairCostNonNeg(C: seq<seq<int>>, P: seq<Cell>)
    requires Indexes(C, P)
    requires forall i :: 0 <= i < |P| ==> C[P[i].0][P[i].1] >= 0
    ensures PairCost(C, P) >= 0
  {
    if |P| > 0 {
      PairCostNonNeg(C, P[..|P| - 1]);
    }
  }

  /** k cells of the same cost x cost k * x together. */
  lemma {:induction false} PairCostConst(C: seq<seq<int>>, P: seq<Cell>, x: int)
    requires Indexes(C, P)
    requires forall i :: 0 <= i < |P| ==> C[P[i].0][P[i].1] == x
    ensures PairCost(C, P) == |P| * x
  {
    if |P| > 0 {
      PairCostConst(C, P[..|P| - 1], x);
    }
  }

  /** The lower bound of the Hungarian method: if C0 = C + u + v with C never
      negative, every complete assignment F of the n-by-n matrix costs at
      least sum(u) + sum(v) in C0, and exactly that when all of its cells are
      zeros of C. */
  lemma LowerBound(C0: seq<seq<int>>, C: seq<seq<int>>, u: seq<int>, v: seq<int>, F: seq<Cell>)
    requires Square(C0, |u|) && Square(C, |u|) && |v| == |u|
    requires forall r, c :: 0 <= r < |u| && 0 <= c < |u| ==> C0[r][c] == C[r][c] + u[r] + v[c]
    requires forall r, c :: 0 <= r < |u| && 0 <= c < |u| ==> C[r][c] >= 0
    requires IsPairing(F, |u|, |u|) && |F| == |u|
    ensures Indexes(C0, F)
    ensures PairCost(C0, F) >= SumI(u) + SumI(v)
    ensures (forall i :: 0 <= i < |F| ==> C[F[i].0][F[i].1] == 0) ==> PairCost(C0, F) == SumI(u) + SumI(v)
  {
    PairingRowsCols(F, |u|, |u|);
    PairCostPotential(C0, C, u, v, F);
    SumAtPerm(u, Rows(F));
    SumAtPerm(v, Cols(F));
    assert u[..|u|] == u && v[..|v|] == v;
    PairCostNonNeg(C, F);
    if forall i :: 0 <= i < |F| ==> C[F[i].0][F[i].1] == 0 {
      PairCostConst(C, F, 0);
    }
  }

  // ---------------------------------------------------------------------------
  // Completing a partial assignment.

  /** The indices below n that do not occur in X, in ascending order. */
  function Unused(n: nat, X: seq<int>): (r: seq<int>)
    ensures forall i :: 0 <= i < |r| ==> 0 <= r[i] < n && r[i] !in X
    ensures forall x :: 0 <= x < n && x !in X ==> x in r
    ensures forall i, j :: 0 <= i < j < |r| ==> r[i] < r[j]
  {
    if n == 0 then []
    else
      var init := Unused(n - 1, X);
      if n - 1 in X then init else init + [n - 1]
  }

  /** A distinct list of numbers in [0, n) that misses none of them has
      length n. */
  lemma CoveringLength(f: seq<int>, n: nat)
    requires Distinct(f) && InRange(f, n)
    requires forall x :: 0 <= x < n ==> x in f
    ensures |f| == n
  {
    CardDistinct(f);
    CardDistinct(Iota(n));
    assert (set x | x in f) == (set x | x in Iota(n)) by {
      forall x | x in Iota(n)
        ensures x in f
      {
        assert 0 <= x < n;
      }
      forall x | x in f
        ensures x in Iota(n)
      {
        assert Iota(n)[x] == x;
      }
    }
  }

  /** Exactly n - |X| indices below n are unused by a distinct X within
      [0, n). */
  lemma UnusedCount(n: nat, X: seq<int>)
    requires Distinct(X) && InRange(X, n)
    ensures |Unused(n, X)| == n - |X|
  {
    var U := Unused(n, X);
    var A := set x | x in Iota(n);
    var SX := set x | x in X;
    var SU := set x | x in U;
    CardDistinct(Iota(n));
    CardDistinct(X);
    CardDistinct(U);
    assert SU * SX == {};
    assert A == SU + SX by {
      forall x | x in A
        ensures x in SU + SX
      {
        assert 0 <= x < n;
      }
      forall x | x in SU + SX
        ensures x in A
      {
        assert Iota(n)[x] == x;
      }
    }
  }

  function Zip(a: seq<int>, b: seq<int>): (z: seq<Cell>)
    requires |a| == |b|
    ensures Rows(z) == a && Cols(z) == b
  {
    seq(|a|, i requires 0 <= i < |a| => (a[i], b[i]))
  }

  /** Extends a partial assignment of an n-by-n matrix by pairing the unused
      rows with the unused columns in ascending order. */
  ghost function Extend(Q: seq<Cell>, n: nat): (F: seq<Cell>)
    requires IsPairing(Q, n, n)
    ensures |Q| <= n && |F| == n && F[..|Q|] == Q
  {
    PairingRowsCols(Q, n, n);
    UnusedCount(n, Rows(Q));
    UnusedCount(n, Cols(Q));
    Q + Zip(Unused(n, Rows(Q)), Unused(n, Cols(Q)))
  }

  /** The extension is a complete assignment of the n-by-n matrix. */
  lemma ExtendFull(Q: seq<Cell>, n: nat)
    requires IsPairing(Q, n, n)
    ensures IsPairing(Extend(Q, n), n, n)
  {
    PairingRowsCols(Q, n, n);
    UnusedCount(n, Rows(Q));
    UnusedCount(n, Cols(Q));
    var R := Unused(n, Rows(Q));
    var K := Unused(n, Cols(Q));
    var Z := Zip(R, K);
    var F := Extend(Q, n);
    assert F == Q + Z;
    RowsColsConcat(Q, Z);
    DistinctConcat(Rows(Q), R);
    DistinctConcat(Cols(Q), K);
    assert InRange(Rows(F), n) && InRange(Cols(F), n);
    RowsColsPairing(F, n, n);
  }

  /** Every partial assignment Q of the n-by-n matrix extends to a complete
      one, Q + Z, whose added cells Z use only rows and columns Q leaves
      free. */
  lemma Completion(Q: seq<Cell>, n: nat) returns (Z: seq<Cell>)
    requires IsPairing(Q, n, n)
    ensures IsPairing(Q + Z, n, n) && |Q| + |Z| == n
    ensures forall i :: 0 <= i < |Z| ==> 0 <= Z[i].0 < n && 0 <= Z[i].1 < n
                                         && Z[i].0 !in Rows(Q) && Z[i].1 !in Cols(Q)
  {
    var F := Extend(Q, n);
    ExtendFull(Q, n);
    ExtendTail(Q, n);
    Z := F[|Q|..];
    assert F == Q + Z by {
      assert F == F[..|Q|] + F[|Q|..];
    }
    forall i | 0 <= i < |Z|
      ensures 0 <= Z[i].0 < n && 0 <= Z[i].1 < n && Z[i].0 !in Rows(Q) && Z[i].1 !in Cols(Q)
    {
      assert Z[i] == F[|Q| + i];
    }
  }

  /** The cells Extend adds use rows and columns Q leaves free. */
  lemma ExtendTail(Q: seq<Cell>, n: nat)
    requires IsPairing(Q, n, n)
    ensures forall i :: |Q| <= i < n ==>
              Extend(Q, n)[i].0 !in Rows(Q) && Extend(Q, n)[i].1 !in Cols(Q)
  {
    PairingRowsCols(Q, n, n);
    UnusedCount(n, Rows(Q));
    UnusedCount(n, Cols(Q));
    var R := Unused(n, Rows(Q));
    var K := Unused(n, Cols(Q));
    var Z := Zip(R, K);
    var E := Extend(Q, n);
    assert E == Q + Z;
    forall i | |Q| <= i < n
      ensures 0 <= E[i].0 < n && 0 <= E[i].1 < n && E[i].0 !in Rows(Q) && E[i].1 !in Cols(Q)
    {
      assert E[i] == Z[i - |Q|] == (R[i - |Q|], K[i - |Q|]);
    }
  }

  lemma RowsColsConcat(A: seq<Cell>, B: seq<Cell>)
    ensures Rows(A + B) == Rows(A) + Rows(B) && Cols(A + B) == Cols(A) + Cols(B)
  {
  }

  lemma DistinctConcat(a: seq<int>, b: seq<int>)
    requires Distinct(a) && Distinct(b)
    requires forall i :: 0 <= i < |b| ==> b[i] !in a
    ensures Distinct(a + b)
  {
    forall i, j | 0 <= i < j < |a + b|
      ensures (a + b)[i] != (a + b)[j]
    {
      if i < |a| && j >= |a| {
        assert b[j - |a|] !in a;
      }
    }
  }
}

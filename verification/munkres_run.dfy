/** The main loop of the Hungarian method (RunMunkres): dispatches on the
    step number until step seven, and the proof that it stops with a
    complete assignment of least cost. */
module MunkresRun {
  import opened MunkresDefs
  import opened MunkresSteps
  import opened MunkresSearch
  import opened MunkresReduce
  import opened MunkresPath
  import opened MunkresOptimal

  /** The state the loop ends in: every row holds exactly one starred zero
      and the reduced costs are not negative. */
  ghost predicate Finished(s: Solver) {
    WellFormed(s) && NonNegative(s) && MarksOnZeros(s) && StarsIndependent(s) && NoPrimes(s)
    && forall r :: 0 <= r < s.n ==> RowHasStar(s, r)
  }

  /** Each row paired with the column of its star. */
  ghost function AllStars(s: Solver): (F: seq<Cell>)
    requires WellFormed(s) && forall r :: 0 <= r < s.n ==> RowHasStar(s, r)
    ensures |F| == s.n
    ensures forall i :: 0 <= i < s.n ==> F[i].0 == i && 0 <= F[i].1 < s.n && s.M[i][F[i].1] == Star
  {
    seq(s.n, r requires 0 <= r < s.n => (r, StarCol(s, r)))
  }

  lemma AllStarsPairing(s: Solver)
    requires Finished(s)
    ensures IsPairing(AllStars(s), s.n, s.n)
  {
    var F := AllStars(s);
    forall i, j | 0 <= i < j < |F|
      ensures F[i].1 != F[j].1
    {
      assert s.M[i][F[i].1] == Star && s.M[j][F[j].1] == Star;
    }
  }

  /** What must hold when the loop is about to run `step`. */
  ghost predicate Stage(s: Solver, step: int, time: seq<nat>, T: nat, r0: int, c0: int) {
    WellFormed(s) &&
    match step
    case 1 => Fresh(s)
    case 2 => Fresh(s) && NonNegative(s)
    case 3 => StarsOnly(s)
    case 4 => CoverInv(s, time, T)
    case 5 => PathStart(s, time, r0, c0)
    case 6 => CoverInv(s, time, T) && NoUncoveredZero(s)
    case 7 => Finished(s)
    case _ => false
  }

  /** The original costs are the reduced ones plus a row and a column
      potential. */
  ghost predicate Potentials(C0: seq<seq<int>>, s: Solver, u: seq<int>, v: seq<int>)
    requires WellFormed(s)
  {
    Square(C0, s.n) && |u| == s.n && |v| == s.n
    && forall r, c :: 0 <= r < s.n && 0 <= c < s.n ==> C0[r][c] == s.C[r][c] + u[r] + v[c]
  }

  /** The innermost part of the loop's termination measure: the steps that
      neither add a star nor cover a new row run in the order 1, 2, 3, 4, 6,
      4, and step four after step six always finds an uncovered zero. */
  ghost function Rank(step: int, s: Solver): nat
    requires WellFormed(s)
  {
    match step
    case 1 => 6
    case 2 => 5
    case 3 => 4
    case 4 => if NoUncoveredZero(s) then 3 else 1
    case 6 => 2
    case _ => 0
  }

  lemma FreshNoStars(s: Solver)
    requires Fresh(s)
    ensures StarCount(s) == 0 && CountTrue(s.rowCover) == 0
  {
    NoCoversCountZero(StarredRows(s));
    NoCoversCountZero(s.rowCover);
  }

  /** One pass of the loop moves its termination measure down: more stars,
      or as many stars and more covered rows, or the same of both and a
      lower rank. */
  ghost predicate Progress(s: Solver, step: int, s': Solver, step': int)
    requires WellFormed(s) && WellFormed(s') && s'.n == s.n
  {
    StarCount(s') > StarCount(s)
    || (StarCount(s') == StarCount(s)
        && (CountTrue(s'.rowCover) > CountTrue(s.rowCover)
            || (CountTrue(s'.rowCover) == CountTrue(s.rowCover) && Rank(step', s') < Rank(step, s))))
  }

  method RunStepOne(s: Solver, ghost C0: seq<seq<int>>, ghost u: seq<int>, ghost v: seq<int>)
    returns (s': Solver, step': int, ghost u': seq<int>)
    requires Fresh(s) && Potentials(C0, s, u, v)
    ensures s'.n == s.n && WellFormed(s') && step' == 2 && Fresh(s') && NonNegative(s')
    ensures Potentials(C0, s', u', v) && Progress(s, 1, s', step')
  {
    ghost var rowMin;
    s', step', rowMin := StepOne(s);
    u' := seq(s.n, r requires 0 <= r < s.n => u[r] + rowMin[r]);
    SameStarsSameCount(s, s');
  }

  method RunStepTwo(s: Solver, ghost C0: seq<seq<int>>, ghost u: seq<int>, ghost v: seq<int>)
    returns (s': Solver, step': int)
    requires Fresh(s) && NonNegative(s) && Potentials(C0, s, u, v)
    ensures s'.n == s.n && WellFormed(s') && step' == 3 && StarsOnly(s')
    ensures Potentials(C0, s', u, v) && Progress(s, 2, s', step')
  {
    FreshNoStars(s);
    s', step' := StepTwo(s);
    NoCoversCountZero(s'.rowCover);
  }

  method RunStepThree(s: Solver, ghost C0: seq<seq<int>>, ghost u: seq<int>, ghost v: seq<int>)
    returns (s': Solver, step': int, ghost time': seq<nat>, ghost T': nat)
    requires StarsOnly(s) && Potentials(C0, s, u, v)
    ensures s'.n == s.n && WellFormed(s')
    ensures (step' == 7 && Finished(s')) || (step' == 4 && CoverInv(s', time', T'))
    ensures Potentials(C0, s', u, v) && Progress(s, 3, s', step')
  {
    s', step' := StepThree(s);
    SameStarsSameCount(s, s');
    time', T' := seq(s.n, _ => 0), 0;
    if step' == 7 {
      forall c | 0 <= c < s.n
        ensures ColHasStar(s', c)
      {
        assert ColHasStar(s, c);
      }
      ColsStarredRowsStarred(s');
    } else {
      StepThreeCovers(s, s', time');
      NoCoversCountZero(s.rowCover);
    }
  }

  method RunStepFour(s: Solver, ghost time: seq<nat>, ghost T: nat,
                     ghost C0: seq<seq<int>>, ghost u: seq<int>, ghost v: seq<int>)
    returns (s': Solver, step': int, row0: int, col0: int, ghost time': seq<nat>, ghost T': nat)
    requires CoverInv(s, time, T) && Potentials(C0, s, u, v)
    ensures s'.n == s.n && WellFormed(s')
    ensures (step' == 5 && PathStart(s', time', row0, col0))
            || (step' == 6 && CoverInv(s', time', T') && NoUncoveredZero(s'))
    ensures Potentials(C0, s', u, v) && Progress(s, 4, s', step')
  {
    s', step', row0, col0, time', T' := StepFour(s, time, T);
    SameStarsSameCount(s, s');
    FourProgress(s, s', step');
  }

  /** Step four covers more rows, or covers none and finds no uncovered
      zero, which ranks it above step six; step five ranks below all. */
  lemma FourProgress(s: Solver, s': Solver, step': int)
    requires WellFormed(s) && WellFormed(s') && s'.n == s.n && StarCount(s') == StarCount(s)
    requires step' == 5 || step' == 6
    requires CountTrue(s'.rowCover) >= CountTrue(s.rowCover)
    requires step' == 6 && CountTrue(s'.rowCover) == CountTrue(s.rowCover) ==> NoUncoveredZero(s)
    ensures Progress(s, 4, s', step')
  {
    if CountTrue(s'.rowCover) == CountTrue(s.rowCover) {
      assert Rank(step', s') < Rank(4, s);
    }
  }

  method RunStepFive(s: Solver, ghost time: seq<nat>, row0: int, col0: int,
                     ghost C0: seq<seq<int>>, ghost u: seq<int>, ghost v: seq<int>)
    returns (s': Solver, step': int)
    requires PathStart(s, time, row0, col0) && Potentials(C0, s, u, v)
    ensures s'.n == s.n && WellFormed(s') && step' == 3 && StarsOnly(s')
    ensures Potentials(C0, s', u, v) && Progress(s, 5, s', step')
  {
    s', step' := StepFive(s, time, row0, col0);
  }

  method RunStepSix(s: Solver, ghost time: seq<nat>, ghost T: nat,
                    ghost C0: seq<seq<int>>, ghost u: seq<int>, ghost v: seq<int>)
    returns (s': Solver, step': int, ghost u': seq<int>, ghost v': seq<int>)
    requires CoverInv(s, time, T) && NoUncoveredZero(s) && Potentials(C0, s, u, v)
    ensures s'.n == s.n && WellFormed(s') && step' == 4 && CoverInv(s', time, T)
    ensures Potentials(C0, s', u', v') && Progress(s, 6, s', step')
  {
    var m;
    s', step', m := StepSix(s, time, T);
    u', v' := ShiftPotentials(C0, s, s', u, v, m);
    SameStarsSameCount(s, s');
    SixProgress(s, s');
  }

  /** Step six keeps the stars and covers and leaves an uncovered zero, so
      step four after it ranks lower than step six. */
  lemma SixProgress(s: Solver, s': Solver)
    requires WellFormed(s) && WellFormed(s') && s'.n == s.n
    requires StarCount(s') == StarCount(s) && s'.rowCover == s.rowCover && !NoUncoveredZero(s')
    ensures Progress(s, 6, s', 4)
  {
    assert Rank(4, s') == 1 && Rank(6, s) == 2;
  }

  /** Step six adds m to the covered rows and takes it from the uncovered
      columns; moving m the other way in the potentials keeps their sum with
      the reduced costs equal to the original costs. */
  lemma ShiftPotentials(C0: seq<seq<int>>, s: Solver, s': Solver, u: seq<int>, v: seq<int>, m: int)
    returns (u': seq<int>, v': seq<int>)
    requires WellFormed(s) && s' == s.(C := s'.C) && WellFormed(s') && Potentials(C0, s, u, v)
    requires forall r, c :: 0 <= r < s.n && 0 <= c < s.n ==>
               s'.C[r][c] == s.C[r][c] + (if s.rowCover[r] then m else 0) - (if s.colCover[c] then 0 else m)
    ensures Potentials(C0, s', u', v')
  {
    u' := seq(s.n, r requires 0 <= r < s.n => u[r] - (if s.rowCover[r] then m else 0));
    v' := seq(s.n, c requires 0 <= c < s.n => v[c] + (if s.colCover[c] then 0 else m));
  }

  /** Runs the steps from a fresh state until step seven. The stars it ends
      with cover every row and every column once, and no complete assignment
      of the n-by-n cost matrix it started from is cheaper. */
  method RunMunkres(s0: Solver) returns (s: Solver)
    requires Fresh(s0)
    ensures s.n == s0.n && Finished(s)
    ensures forall c :: 0 <= c < s.n ==> ColHasStar(s, c)
    ensures Indexes(s0.C, AllStars(s))
    ensures forall F :: IsPairing(F, s0.n, s0.n) && |F| == s0.n
              ==> PairCost(s0.C, AllStars(s)) <= PairCost(s0.C, F)
  {
    s := s0;
    var step := 1;
    var done := false;
    var row0, col0 := -1, -1;
    ghost var time: seq<nat> := seq(s0.n, _ => 0);
    ghost var T: nat := 0;
    ghost var u: seq<int> := seq(s0.n, _ => 0);
    ghost var v: seq<int> := seq(s0.n, _ => 0);
    while !done
      invariant s.n == s0.n && WellFormed(s)
      invariant !done ==> Stage(s, step, time, T, row0, col0)
      invariant done ==> Finished(s)
      invariant Potentials(s0.C, s, u, v)
      decreases if done then 0 else 1, s.n - StarCount(s), s.n - CountTrue(s.rowCover), Rank(step, s)
    {
      if step == 7 {
        done := true;
      } else {
        s, step, time, T, row0, col0, u, v := RunStep(s, step, time, T, row0, col0, s0.C, u, v);
      }
    }
    RowsStarredColsStarred(s);
    StarsOptimal(s0.C, s, u, v);
  }

  /** One pass of the loop: runs step `step` (one to six) and returns the
      state and step to go on with. */
  method RunStep(s: Solver, step: int, ghost time: seq<nat>, ghost T: nat, row0: int, col0: int,
                 ghost C0: seq<seq<int>>, ghost u: seq<int>, ghost v: seq<int>)
    returns (s': Solver, step': int, ghost time': seq<nat>, ghost T': nat, row0': int, col0': int,
             ghost u': seq<int>, ghost v': seq<int>)
    requires Stage(s, step, time, T, row0, col0) && step != 7 && Potentials(C0, s, u, v)
    ensures s'.n == s.n && WellFormed(s') && Stage(s', step', time', T', row0', col0')
    ensures Potentials(C0, s', u', v') && Progress(s, step, s', step')
  {
    time', T', row0', col0', u', v' := time, T, row0, col0, u, v;
    if step == 1 {
      s', step', u' := RunStepOne(s, C0, u, v);
    } else if step == 2 {
      s', step' := RunStepTwo(s, C0, u, v);
    } else if step == 3 {
      s', step', time', T' := RunStepThree(s, C0, u, v);
    } else if step == 4 {
      s', step', row0', col0', time', T' := RunStepFour(s, time, T, C0, u, v);
    } else if step == 5 {
      s', step' := RunStepFive(s, time, row0, col0, C0, u, v);
    } else {
      s', step', u', v' := RunStepSix(s, time, T, C0, u, v);
    }
  }

  /** Once finished, the stars cost exactly sum(u) + sum(v) in the original
      matrix, which no complete assignment undercuts. */
  lemma StarsOptimal(C0: seq<seq<int>>, s: Solver, u: seq<int>, v: seq<int>)
    requires Finished(s) && Potentials(C0, s, u, v)
    ensures Indexes(C0, AllStars(s))
    ensures forall F :: IsPairing(F, s.n, s.n) && |F| == s.n ==> PairCost(C0, AllStars(s)) <= PairCost(C0, F)
  {
    AllStarsPairing(s);
    var stars := AllStars(s);
    LowerBound(C0, s.C, u, v, stars);
    forall F | IsPairing(F, s.n, s.n) && |F| == s.n
      ensures PairCost(C0, stars) <= PairCost(C0, F)
    {
      LowerBound(C0, s.C, u, v, F);
    }
  }
}

/** Shared vocabulary of the vowel-feedback pipeline: the failure wrapper used
    where the program throws or returns null, the configuration constants of the
    analysis, sums and extrema over sequences of reals, and the stable sort the
    program gets from LINQ's OrderBy. */
module Common {

  /** `None` stands for a null reference, a thrown exception or a call that
      never returns, as each member documents. */
  datatype Option<+T> = None | Some(value: T)

  /** Sample rate of the captured audio, in Hz. */
  const SampleRate: int := 44100

  /** Length of the transform buffer (FftProcessor.FFT_LENGTH). */
  const FftLength: int := 44100

  /** Samples per audio update (FftProcessor.SAMPLES_IN_UPDATE = 44100 / 4). */
  const SamplesInUpdate: int := 44100 / 4

  /** Highest frequency of interest for formants, in Hz. */
  const MaxFreq: int := 4000

  /** Width of one spectrum bin in Hz: SAMPLE_RATE / FFT_LENGTH, which is 1
      (BinWidth states the ratio). */
  const FreqPerIndex: real := 1.0

  lemma BinWidth()
    ensures FreqPerIndex == SampleRate as real / FftLength as real
  {
  }

  /** The largest finite single-precision value, float.MaxValue = (2 - 2^-23) * 2^127. */
  const FloatMax: real := 340282346638528859811704183484516925440.0

  /** A product, kept behind a name so that the solver treats it as a term. */
  function Times(a: real, b: real): real {
    a * b
  }

  function Abs(x: real): real {
    if x < 0.0 then -x else x
  }

  function MaxR(a: real, b: real): real {
    if a >= b then a else b
  }

  function MinR(a: real, b: real): real {
    if a <= b then a else b
  }

  function MinI(a: int, b: int): int {
    if a <= b then a else b
  }

  function MaxI(a: int, b: int): int {
    if a >= b then a else b
  }

  /** C#'s (int) cast of a floating value: truncation toward zero. */
  function Trunc(x: real): int {
    if x >= 0.0 then x.Floor else -((-x).Floor)
  }

  /** Math.Ceiling. */
  function Ceil(x: real): int {
    -((-x).Floor)
  }

  /** Left-to-right sum, the order in which the program accumulates. */
  function Sum(s: seq<real>): real {
    if |s| == 0 then 0.0 else Sum(s[..|s| - 1]) + s[|s| - 1]
  }

  /** Arithmetic mean, LINQ's Average(); it throws on an empty sequence. */
  function Mean(s: seq<real>): real
    requires |s| > 0
  {
    Sum(s) / |s| as real
  }

  /** LINQ's Max() over a non-empty sequence. */
  function MaxOf(s: seq<real>): (m: real)
    requires |s| > 0
    ensures forall i :: 0 <= i < |s| ==> s[i] <= m
    ensures exists i :: 0 <= i < |s| && s[i] == m
  {
    if |s| == 1 then s[0]
    else
      var m' := MaxOf(s[..|s| - 1]);
      assert forall i :: 0 <= i < |s| - 1 ==> s[..|s| - 1][i] == s[i];
      MaxR(m', s[|s| - 1])
  }

  /** LINQ's Min() over a non-empty sequence. */
  function MinOf(s: seq<real>): (m: real)
    requires |s| > 0
    ensures forall i :: 0 <= i < |s| ==> m <= s[i]
    ensures exists i :: 0 <= i < |s| && s[i] == m
  {
    if |s| == 1 then s[0]
    else
      var m' := MinOf(s[..|s| - 1]);
      assert forall i :: 0 <= i < |s| - 1 ==> s[..|s| - 1][i] == s[i];
      MinR(m', s[|s| - 1])
  }

  lemma SumAppend(s: seq<real>, x: real)
    ensures Sum(s + [x]) == Sum(s) + x
  {
    assert (s + [x])[..|s|] == s;
  }

  lemma {:induction false} SumConcat(a: seq<real>, b: seq<real>)
    ensures Sum(a + b) == Sum(a) + Sum(b)
    decreases |b|
  {
    if |b| == 0 {
      assert a + b == a;
    } else {
      var b' := b[..|b| - 1];
      assert a + b == (a + b') + [b[|b| - 1]];
      SumAppend(a + b', b[|b| - 1]);
      SumConcat(a, b');
      SumAppend(b', b[|b| - 1]);
      assert b == b' + [b[|b| - 1]];
    }
  }

  /** Every element of `s` is the constant `x`. */
  ghost predicate AllEqual(s: seq<real>, x: real) {
    forall i :: 0 <= i < |s| ==> s[i] == x
  }

  /** Ascending order of `s` under `key`. */
  ghost predicate SortedBy<T>(s: seq<T>, key: T -> real) {
    forall i, j :: 0 <= i < j < |s| ==> key(s[i]) <= key(s[j])
  }

  /** Places `x` after every leading element whose key does not exceed its own,
      so that equal keys keep their arrival order. */
  function InsertBy<T>(x: T, s: seq<T>, key: T -> real): (r: seq<T>)
    requires SortedBy(s, key)
    ensures SortedBy(r, key)
    ensures multiset(r) == multiset(s) + multiset{x}
    ensures |r| == |s| + 1
  {
    if |s| == 0 then [x]
    else if key(x) < key(s[0]) then [x] + s
    else
      var tail := InsertBy(x, s[1..], key);
      assert s == [s[0]] + s[1..];
      HeadBelowAll(x, s, key, tail);
      [s[0]] + tail
  }

  /** The head of a sorted sequence is below every element of its tail
      with one element of larger key added. */
  lemma HeadBelowAll<T>(x: T, s: seq<T>, key: T -> real, tail: seq<T>)
    requires SortedBy(s, key) && |s| > 0 && key(s[0]) <= key(x)
    requires multiset(tail) == multiset(s[1..]) + multiset{x}
    ensures forall k :: 0 <= k < |tail| ==> key(s[0]) <= key(tail[k])
  {
    forall k | 0 <= k < |tail|
      ensures key(s[0]) <= key(tail[k])
    {
      assert tail[k] in multiset(tail);
      if tail[k] in multiset(s[1..]) {
        var j :| 0 <= j < |s[1..]| && s[1..][j] == tail[k];
        assert s[j + 1] == tail[k];
      }
    }
  }

  /** Stable ascending sort by `key`: LINQ's OrderBy(key), and
      OrderByDescending(k) when `key` is the negation of `k`. */
  function SortBy<T>(s: seq<T>, key: T -> real): (r: seq<T>)
    ensures SortedBy(r, key)
    ensures multiset(r) == multiset(s)
    ensures |r| == |s|
  {
    if |s| == 0 then []
    else
      assert s == s[..|s| - 1] + [s[|s| - 1]];
      InsertBy(s[|s| - 1], SortBy(s[..|s| - 1], key), key)
  }

  /** The elements of `s` whose key is v, in their order in `s`. */
  function WithKey<T>(s: seq<T>, key: T -> real, v: real): seq<T> {
    if |s| == 0 then []
    else WithKey(s[..|s| - 1], key, v) + (if key(s[|s| - 1]) == v then [s[|s| - 1]] else [])
  }

  lemma {:induction false} WithKeyAppend<T>(a: seq<T>, b: seq<T>, key: T -> real, v: real)
    ensures WithKey(a + b, key, v) == WithKey(a, key, v) + WithKey(b, key, v)
    decreases |b|
  {
    if |b| == 0 {
      assert a + b == a;
    } else {
      WithKeyAppend(a, b[..|b| - 1], key, v);
      assert (a + b)[..|a + b| - 1] == a + b[..|b| - 1];
    }
  }

  lemma {:induction false} WithKeyNone<T>(s: seq<T>, key: T -> real, v: real)
    requires forall j :: 0 <= j < |s| ==> key(s[j]) != v
    ensures WithKey(s, key, v) == []
  {
    if |s| > 0 {
      WithKeyNone(s[..|s| - 1], key, v);
    }
  }

  /** Inserting x adds it after the elements of its own key. */
  lemma {:induction false} WithKeyInsert<T>(x: T, s: seq<T>, key: T -> real, v: real)
    requires SortedBy(s, key)
    ensures WithKey(InsertBy(x, s, key), key, v) == WithKey(s, key, v) + WithKey([x], key, v)
  {
    if |s| == 0 {
      assert [x][..0] == [];
    } else if key(x) < key(s[0]) {
      WithKeyInsertFront(x, s, key, v);
    } else {
      var t := s[1..];
      assert SortedBy(t, key);
      WithKeyInsert(x, t, key, v);
      WithKeyCons(s[0], t, x, InsertBy(x, t, key), key, v);
      assert InsertBy(x, s, key) == [s[0]] + InsertBy(x, t, key);
      assert s == [s[0]] + t;
    }
  }

  lemma WithKeyInsertFront<T>(x: T, s: seq<T>, key: T -> real, v: real)
    requires SortedBy(s, key) && |s| > 0 && key(x) < key(s[0])
    ensures WithKey(InsertBy(x, s, key), key, v) == WithKey(s, key, v) + WithKey([x], key, v)
  {
    assert InsertBy(x, s, key) == [x] + s;
    WithKeyAppend([x], s, key, v);
    assert [x][..0] == [];
    if key(x) == v {
      assert forall j :: 0 <= j < |s| ==> key(s[0]) <= key(s[j]);
      WithKeyNone(s, key, v);
    }
  }

  lemma WithKeyCons<T>(h: T, t: seq<T>, x: T, a: seq<T>, key: T -> real, v: real)
    requires WithKey(a, key, v) == WithKey(t, key, v) + WithKey([x], key, v)
    ensures WithKey([h] + a, key, v) == WithKey([h] + t, key, v) + WithKey([x], key, v)
  {
    WithKeyAppend([h], a, key, v);
    WithKeyAppend([h], t, key, v);
  }

  /** The sort is stable: the elements of any one key keep their order. */
  lemma {:induction false} SortByStable<T>(s: seq<T>, key: T -> real, v: real)
    ensures WithKey(SortBy(s, key), key, v) == WithKey(s, key, v)
  {
    if |s| > 0 {
      var init, x := s[..|s| - 1], s[|s| - 1];
      SortByStable(init, key, v);
      WithKeyInsert(x, SortBy(init, key), key, v);
      assert [x][..0] == [];
    }
  }

  // ---------------------------------------------------------------------
  // Ranks: an order statistic defined by counting, independent of any sort.

  /** Whether key a lies below v: strictly, or at or below it. */
  predicate Below(a: real, v: real, strict: bool) {
    if strict then a < v else a <= v
  }

  /** How many elements of s have a key below v. */
  function CountBelow<T>(s: seq<T>, key: T -> real, v: real, strict: bool): (n: nat)
    ensures n <= |s|
  {
    if |s| == 0 then 0
    else CountBelow(s[..|s| - 1], key, v, strict) + (if Below(key(s[|s| - 1]), v, strict) then 1 else 0)
  }

  /** x is an element of s that sits at position p (from 0) once s is put
      in ascending order of key: at most p elements lie strictly below its
      key, and more than p lie at or below it. */
  ghost predicate AtRank<T>(s: seq<T>, key: T -> real, p: nat, x: T) {
    x in s && CountBelow(s, key, key(x), true) <= p < CountBelow(s, key, key(x), false)
  }

  /** AtRank, with ties broken by order of arrival: among the elements of
      the same key, x is the one that arrived (p - lo)-th, where lo counts
      the elements of smaller key. */
  ghost predicate AtStableRank<T>(s: seq<T>, key: T -> real, p: nat, x: T) {
    AtRank(s, key, p, x)
    && p - CountBelow(s, key, key(x), true) < |WithKey(s, key, key(x))|
    && WithKey(s, key, key(x))[p - CountBelow(s, key, key(x), true)] == x
  }

  lemma {:induction false} CountAppend<T>(a: seq<T>, b: seq<T>, key: T -> real, v: real, strict: bool)
    ensures CountBelow(a + b, key, v, strict) == CountBelow(a, key, v, strict) + CountBelow(b, key, v, strict)
    decreases |b|
  {
    if |b| == 0 {
      assert a + b == a;
    } else {
      CountAppend(a, b[..|b| - 1], key, v, strict);
      assert (a + b)[..|a + b| - 1] == a + b[..|b| - 1];
    }
  }

  lemma {:induction false} CountNone<T>(s: seq<T>, key: T -> real, v: real, strict: bool)
    requires forall j :: 0 <= j < |s| ==> !Below(key(s[j]), v, strict)
    ensures CountBelow(s, key, v, strict) == 0
  {
    if |s| > 0 {
      CountNone(s[..|s| - 1], key, v, strict);
    }
  }

  lemma CountSingle<T>(x: T, key: T -> real, v: real, strict: bool)
    ensures CountBelow([x], key, v, strict) == if Below(key(x), v, strict) then 1 else 0
  {
    assert [x][..0] == [];
  }

  /** Counting does not depend on the order of the elements. */
  lemma {:induction false} CountPerm<T>(a: seq<T>, b: seq<T>, key: T -> real, v: real, strict: bool)
    requires multiset(a) == multiset(b)
    ensures CountBelow(a, key, v, strict) == CountBelow(b, key, v, strict)
    decreases |a|
  {
    if |a| == 0 {
      assert |b| == |multiset(b)| == 0;
    } else {
      var e, a' := a[|a| - 1], a[..|a| - 1];
      assert a == a' + [e];
      assert e in multiset(b);
      var j :| 0 <= j < |b| && b[j] == e;
      var b' := b[..j] + b[j + 1..];
      assert b == b[..j] + [e] + b[j + 1..];
      assert multiset(b) == multiset(b[..j]) + multiset{e} + multiset(b[j + 1..]);
      assert multiset(b') == multiset(b[..j]) + multiset(b[j + 1..]);
      assert multiset(a) == multiset(a') + multiset{e};
      assert multiset(b) == multiset(b') + multiset{e};
      assert multiset(a') == multiset(a) - multiset{e};
      assert multiset(b') == multiset(b) - multiset{e};
      CountPerm(a', b', key, v, strict);
      CountAppend(b[..j], [e], key, v, strict);
      CountAppend(b[..j] + [e], b[j + 1..], key, v, strict);
      CountAppend(b[..j], b[j + 1..], key, v, strict);
      CountSingle(e, key, v, strict);
    }
  }

  /** A larger threshold counts at least as many elements. */
  lemma {:induction false} CountMono<T>(s: seq<T>, key: T -> real, v1: real, s1: bool, v2: real, s2: bool)
    requires forall a :: Below(a, v1, s1) ==> Below(a, v2, s2)
    ensures CountBelow(s, key, v1, s1) <= CountBelow(s, key, v2, s2)
  {
    if |s| > 0 {
      CountMono(s[..|s| - 1], key, v1, s1, v2, s2);
    }
  }

  /** In a sorted sequence the elements below a threshold form a prefix,
      as long as their count. */
  lemma {:induction false} SortedCountPrefix<T>(r: seq<T>, key: T -> real, v: real, strict: bool)
    requires SortedBy(r, key)
    ensures forall i :: 0 <= i < |r| ==> (i < CountBelow(r, key, v, strict) <==> Below(key(r[i]), v, strict))
  {
    if |r| > 0 {
      var t := r[1..];
      assert r == [r[0]] + t;
      assert SortedBy(t, key);
      SortedCountPrefix(t, key, v, strict);
      CountAppend([r[0]], t, key, v, strict);
      CountSingle(r[0], key, v, strict);
      if !Below(key(r[0]), v, strict) {
        assert forall j :: 0 <= j < |t| ==> key(r[0]) <= key(t[j]) by {
          assert forall j :: 0 <= j < |t| ==> t[j] == r[j + 1];
        }
        CountNone(t, key, v, strict);
      }
      forall i | 0 < i < |r|
        ensures i < CountBelow(r, key, v, strict) <==> Below(key(r[i]), v, strict)
      {
        assert r[i] == t[i - 1];
      }
    }
  }

  lemma {:induction false} WithKeyAll<T>(s: seq<T>, key: T -> real, v: real)
    requires forall j :: 0 <= j < |s| ==> key(s[j]) == v
    ensures WithKey(s, key, v) == s
  {
    if |s| > 0 {
      WithKeyAll(s[..|s| - 1], key, v);
      assert s == s[..|s| - 1] + [s[|s| - 1]];
    }
  }

  /** Position p of a sorted sequence holds its element of stable rank p. */
  lemma SortedRank<T>(r: seq<T>, key: T -> real, p: nat)
    requires SortedBy(r, key) && p < |r|
    ensures AtStableRank(r, key, p, r[p])
  {
    var v := key(r[p]);
    SortedCountPrefix(r, key, v, true);
    SortedCountPrefix(r, key, v, false);
    var lo, hi := CountBelow(r, key, v, true), CountBelow(r, key, v, false);
    assert lo <= p < hi;
    SortedBlock(r, key, v, lo, hi);
    assert r[lo..hi][p - lo] == r[p];
  }

  /** A sorted sequence split at the counts below v: WithKey picks out
      the middle block. */
  lemma SortedBlock<T>(r: seq<T>, key: T -> real, v: real, lo: nat, hi: nat)
    requires lo <= hi <= |r|
    requires forall i :: 0 <= i < |r| ==> (i < lo <==> key(r[i]) < v)
    requires forall i :: 0 <= i < |r| ==> (i < hi <==> key(r[i]) <= v)
    ensures WithKey(r, key, v) == r[lo..hi]
  {
    var a, m, b := r[..lo], r[lo..hi], r[hi..];
    assert WithKey(r, key, v) == WithKey(a, key, v) + WithKey(m, key, v) + WithKey(b, key, v) by {
      assert r == a + m + b;
      WithKeyAppend(a + m, b, key, v);
      WithKeyAppend(a, m, key, v);
    }
    assert WithKey(a, key, v) == [] by {
      assert forall j :: 0 <= j < |a| ==> a[j] == r[j];
      WithKeyNone(a, key, v);
    }
    assert WithKey(m, key, v) == m by {
      assert forall j :: 0 <= j < |m| ==> m[j] == r[lo + j];
      WithKeyAll(m, key, v);
    }
    assert WithKey(b, key, v) == [] by {
      assert forall j :: 0 <= j < |b| ==> b[j] == r[hi + j];
      WithKeyNone(b, key, v);
    }
  }

  /** The sort puts at position p the element of stable rank p. */
  lemma SortByRank<T>(s: seq<T>, key: T -> real, p: nat)
    requires p < |s|
    ensures AtStableRank(s, key, p, SortBy(s, key)[p])
  {
    var r := SortBy(s, key);
    var x := r[p];
    var v := key(x);
    SortedRank(r, key, p);
    CountPerm(r, s, key, v, true);
    CountPerm(r, s, key, v, false);
    SortByStable(s, key, v);
    assert x in multiset(s);
    assert AtRank(s, key, p, x);
    var lo := CountBelow(s, key, v, true);
    assert lo == CountBelow(r, key, v, true);
    assert WithKey(s, key, v) == WithKey(r, key, v);
    assert p - lo < |WithKey(s, key, v)| && WithKey(s, key, v)[p - lo] == x;
  }

  /** Two elements of the same rank have the same key. */
  lemma RankUnique<T>(s: seq<T>, key: T -> real, p: nat, x: T, y: T)
    requires AtRank(s, key, p, x) && AtRank(s, key, p, y)
    ensures key(x) == key(y)
  {
    if key(x) < key(y) {
      CountMono(s, key, key(x), false, key(y), true);
    } else if key(y) < key(x) {
      CountMono(s, key, key(y), false, key(x), true);
    }
  }

  /** The element of a stable rank is unique. */
  lemma StableRankUnique<T>(s: seq<T>, key: T -> real, p: nat, x: T, y: T)
    requires AtStableRank(s, key, p, x) && AtStableRank(s, key, p, y)
    ensures x == y
  {
    RankUnique(s, key, p, x, y);
  }

  /** The sort puts the element of stable rank p at position p. */
  lemma SortByAtStableRank<T>(s: seq<T>, key: T -> real, p: nat, x: T)
    requires p < |s| && AtStableRank(s, key, p, x)
    ensures SortBy(s, key)[p] == x
  {
    SortByRank(s, key, p);
    StableRankUnique(s, key, p, SortBy(s, key)[p], x);
  }

  /** The sort puts at position p an element of the key of rank p. */
  lemma SortByAtRank<T>(s: seq<T>, key: T -> real, p: nat, x: T)
    requires p < |s| && AtRank(s, key, p, x)
    ensures key(SortBy(s, key)[p]) == key(x)
  {
    SortByRank(s, key, p);
    RankUnique(s, key, p, SortBy(s, key)[p], x);
  }

  /** LINQ's Where(p). */
  function Filter<T>(s: seq<T>, p: T -> bool): (r: seq<T>)
    ensures |r| <= |s|
    ensures forall i :: 0 <= i < |r| ==> p(r[i])
    ensures forall i :: 0 <= i < |s| && p(s[i]) ==> s[i] in r
    ensures multiset(r) <= multiset(s)
  {
    if |s| == 0 then []
    else
      assert s == s[..|s| - 1] + [s[|s| - 1]];
      var init := Filter(s[..|s| - 1], p);
      if p(s[|s| - 1]) then init + [s[|s| - 1]] else init
  }

  /** Filtering out an element shortens the sequence. */
  lemma {:induction false} FilterShorter<T>(s: seq<T>, p: T -> bool, i: nat)
    requires i < |s| && !p(s[i])
    ensures |Filter(s, p)| < |s|
  {
    if i < |s| - 1 {
      FilterShorter(s[..|s| - 1], p, i);
    }
  }

  /** MoreLinq's MaxBy(key) over a non-empty sequence, as an index: the
      first element whose key is the largest (a later element replaces the
      candidate only when its key is strictly larger). */
  function MaxByIndex<T>(s: seq<T>, key: T -> real): (i: nat)
    requires |s| > 0
    ensures i < |s|
    ensures forall j :: 0 <= j < |s| ==> key(s[j]) <= key(s[i])
    ensures forall j :: 0 <= j < i ==> key(s[j]) < key(s[i])
  {
    if |s| == 1 then 0
    else
      var m := MaxByIndex(s[..|s| - 1], key);
      if key(s[|s| - 1]) > key(s[m]) then |s| - 1 else m
  }

  /** MoreLinq's MaxBy(key): the first element of largest key (see
      MaxByFirst). */
  function MaxBy<T>(s: seq<T>, key: T -> real): (r: T)
    requires |s| > 0
    ensures r in s
    ensures forall j :: 0 <= j < |s| ==> key(s[j]) <= key(r)
  {
    s[MaxByIndex(s, key)]
  }

  /** MaxBy picks the first element of largest key: no element before it
      has a key as large. */
  lemma MaxByFirst<T>(s: seq<T>, key: T -> real)
    requires |s| > 0
    ensures var r := MaxBy(s, key);
            forall j :: 0 <= j < |s| && key(s[j]) == key(r) ==> r in s[..j + 1]
  {
    var i := MaxByIndex(s, key);
    forall j | 0 <= j < |s| && key(s[j]) == key(s[i])
      ensures s[i] in s[..j + 1]
    {
      assert i <= j && s[..j + 1][i] == s[i];
    }
  }

  /** Where(p) keeps nothing when no element satisfies p. */
  lemma {:induction false} FilterNone<T>(s: seq<T>, p: T -> bool)
    requires forall i :: 0 <= i < |s| ==> !p(s[i])
    ensures Filter(s, p) == []
  {
    if |s| > 0 {
      FilterNone(s[..|s| - 1], p);
    }
  }

  /** Where(p) over a prefix gives a prefix of Where(p) over the whole. */
  lemma {:induction false} FilterPrefix<T>(s: seq<T>, p: T -> bool, j: nat)
    requires j <= |s|
    ensures Filter(s[..j], p) <= Filter(s, p)
    decreases |s| - j
  {
    if j < |s| {
      var init := s[..|s| - 1];
      assert init[..j] == s[..j];
      FilterPrefix(init, p, j);
    } else {
      assert s[..j] == s;
    }
  }

  /** The kept element at index j is the last of Where(p) over s[..j + 1],
      so Where(p) up to it draws only on s[..j + 1]. */
  lemma FilterUpTo<T>(s: seq<T>, p: T -> bool, j: nat)
    requires j < |s| && p(s[j])
    ensures var pre := Filter(s[..j + 1], p);
            var r := Filter(s, p);
            0 < |pre| <= |r| && r[..|pre|] == pre && r[|pre| - 1] == s[j]
            && forall x :: x in pre ==> x in s[..j + 1]
  {
    var pre := Filter(s[..j + 1], p);
    assert s[..j + 1][..j] == s[..j];
    FilterPrefix(s, p, j + 1);
    forall x | x in pre
      ensures x in s[..j + 1]
    {
      assert x in multiset(pre);
    }
  }

  /** MoreLinq's Where(p).MaxBy(key) is the first element of s, among those
      satisfying p, whose key is the largest. */
  lemma FilterMaxByFirst<T>(s: seq<T>, p: T -> bool, key: T -> real)
    requires |Filter(s, p)| > 0
    ensures var r := MaxBy(Filter(s, p), key);
            forall j :: 0 <= j < |s| && p(s[j]) && key(s[j]) == key(r) ==> r in s[..j + 1]
  {
    var r := MaxBy(Filter(s, p), key);
    forall j | 0 <= j < |s| && p(s[j]) && key(s[j]) == key(r)
      ensures r in s[..j + 1]
    {
      FilterMaxByAt(s, p, key, j);
    }
  }

  /** One index of FilterMaxByFirst. */
  lemma FilterMaxByAt<T>(s: seq<T>, p: T -> bool, key: T -> real, j: nat)
    requires j < |s| && p(s[j])
    ensures var c := Filter(s, p);
            |c| > 0 && (key(s[j]) == key(MaxBy(c, key)) ==> MaxBy(c, key) in s[..j + 1])
  {
    var c := Filter(s, p);
    var jj := FilterIndex(s, p, j);
    var m := MaxBy(c, key);
    if key(s[j]) == key(m) {
      assert key(c[jj]) == key(m);
      MaxByAt(c, key, jj);
      var q :| 0 <= q <= jj && c[q] == m;
    }
  }

  /** The index of kept element s[j] in Where(p), up to which Where(p)
      draws only on s[..j + 1]. */
  lemma FilterIndex<T>(s: seq<T>, p: T -> bool, j: nat) returns (jj: nat)
    requires j < |s| && p(s[j])
    ensures var c := Filter(s, p);
            jj < |c| && c[jj] == s[j] && forall q :: 0 <= q <= jj ==> c[q] in s[..j + 1]
  {
    var c := Filter(s, p);
    var pre := Filter(s[..j + 1], p);
    FilterUpTo(s, p, j);
    jj := |pre| - 1;
    forall q | 0 <= q <= jj
      ensures c[q] in s[..j + 1]
    {
      assert pre[q] in pre;
    }
  }

  /** MaxBy's first-wins clause at one index. */
  lemma MaxByAt<T>(c: seq<T>, key: T -> real, jj: nat)
    requires jj < |c| && key(c[jj]) == key(MaxBy(c, key))
    ensures MaxBy(c, key) in c[..jj + 1]
  {
    MaxByFirst(c, key);
  }

  /** Drops the oldest entry of a history window and appends `x`: the
      program's Array.Copy(w, 1, w, 0, n - 1) followed by w[n - 1] = x. */
  function ShiftIn<T>(w: seq<T>, x: T): (r: seq<T>)
    requires |w| > 0
    ensures |r| == |w|
    ensures r[|r| - 1] == x
    ensures forall i :: 0 <= i < |w| - 1 ==> r[i] == w[i + 1]
  {
    w[1..] + [x]
  }
}

/** The Fisher-Yates shuffle of the timing tests, and the measurement loops that rely on it. */
module TimingTests {

  // ---------- The shuffle ----------

  /** The choices a shuffle can make: at step i one of the n - i elements not placed yet. */
  predicate Choices(n: nat, r: seq<nat>) {
    |r| == n && forall i :: 0 <= i < n ==> r[i] < n - i
  }

  function SwapFirst(s: seq<nat>, j: nat): seq<nat>
    requires j < |s|
  {
    s[0 := s[j]][j := s[0]]
  }

  /** The shuffle of s that makes the choices r. */
  function Shuffled(s: seq<nat>, r: seq<nat>): (t: seq<nat>)
    requires Choices(|s|, r)
    ensures |t| == |s|
    decreases |s|
  {
    if s == [] then []
    else
      var u := SwapFirst(s, r[0]);
      [u[0]] + Shuffled(u[1..], r[1..])
  }

  /** The random words, reduced to choices as the loop does. */
  function Residues(n: nat, draws: seq<nat>): (r: seq<nat>)
    requires |draws| == n
    ensures Choices(n, r)
  {
    seq(n, i requires 0 <= i < n => draws[i] % (n - i))
  }

  /** `shuffle_idx`.  `draws` are the 64-bit words the generator returns. */
  method ShuffleIdx(vec: array<nat>, draws: seq<nat>)
    requires |draws| == vec.Length
    modifies vec
    ensures vec[..] == Shuffled(old(vec[..]), Residues(vec.Length, draws))
  {
    var n := vec.Length;
    ghost var r := Residues(n, draws);
    ghost var s := vec[..];
    assert r[0..] == r && vec[0..] == s && vec[..0] == [];
    hide Shuffled, Residues, SwapFirst;
    var i := 0;
    while i != n
      invariant 0 <= i <= n && r == Residues(n, draws) && s == old(vec[..])
      invariant Choices(n - i, r[i..])
      invariant vec[..i] + Shuffled(vec[i..], r[i..]) == Shuffled(s, r)
    {
      ResiduesAt(n, draws, i);
      var j := i + draws[i] % (n - i);
      ghost var before := vec[..];
      SwapAt(vec, i, j);
      ShuffleStep(before, vec[..], r, i);
      i := i + 1;
    }
    ShuffleNothing();
    assert vec[n..] == [] && r[n..] == [] && vec[..n] == vec[..] && vec[..] + [] == vec[..];
  }

  lemma ShuffleNothing()
    ensures Shuffled([], []) == []
  {
  }

  lemma ResiduesAt(n: nat, draws: seq<nat>, i: nat)
    requires |draws| == n && i < n
    ensures Residues(n, draws)[i] == draws[i] % (n - i) < n - i
  {
  }

  method SwapAt(vec: array<nat>, i: nat, j: nat)
    requires i <= j < vec.Length
    modifies vec
    ensures vec[..i] == old(vec[..i]) && vec[i..] == SwapFirst(old(vec[i..]), j - i)
  {
    vec[i], vec[j] := vec[j], vec[i];
  }

  /** One step of the shuffle: with the first i elements in place, the next one is placed. */
  lemma ShuffleStep(s: seq<nat>, t: seq<nat>, r: seq<nat>, i: nat)
    requires i < |r| == |s| == |t| && Choices(|s| - i, r[i..])
    requires t[..i] == s[..i] && t[i..] == SwapFirst(s[i..], r[i])
    ensures Choices(|s| - i - 1, r[i + 1..])
    ensures t[..i + 1] + Shuffled(t[i + 1..], r[i + 1..]) == s[..i] + Shuffled(s[i..], r[i..])
  {
    assert r[i..][1..] == r[i + 1..] && r[i..][0] == r[i];
    assert t[i..][1..] == t[i + 1..] && t[i..][0] == t[i];
    ShuffleUnfold(s[i..], r[i..]);
    hide Shuffled, SwapFirst;
    var rest := Shuffled(t[i + 1..], r[i + 1..]);
    assert t[..i + 1] == t[..i] + [t[i]];
    assert t[..i] + ([t[i]] + rest) == t[..i] + [t[i]] + rest;
  }

  predicate Distinct(s: seq<nat>) {
    forall i, j :: 0 <= i < j < |s| ==> s[i] != s[j]
  }

  lemma ConsMultiset(s: seq<nat>)
    requires s != []
    ensures multiset(s) == multiset{s[0]} + multiset(s[1..])
  {
    assert s == [s[0]] + s[1..];
  }

  lemma SwapFirstPermutes(s: seq<nat>, j: nat)
    requires j < |s|
    ensures multiset(SwapFirst(s, j)) == multiset(s)
  {
    var u := SwapFirst(s, j);
    if j == 0 {
      assert u == s;
    } else {
      var mid, last := s[1..j], s[j + 1..];
      assert s == [s[0]] + mid + [s[j]] + last;
      assert u == [s[j]] + mid + [s[0]] + last;
    }
  }

  /** The result is a permutation of the input. */
  lemma {:induction false} ShufflePermutes(s: seq<nat>, r: seq<nat>)
    requires Choices(|s|, r)
    ensures multiset(Shuffled(s, r)) == multiset(s)
    decreases |s|
  {
    if s != [] {
      ShuffleUnfold(s, r);
      hide Shuffled, SwapFirst;
      var u := SwapFirst(s, r[0]);
      SwapFirstPermutes(s, r[0]);
      ShufflePermutes(u[1..], r[1..]);
      ConsMultiset(u);
      ConsMultiset(Shuffled(s, r));
    }
  }

  lemma ShuffleUnfold(s: seq<nat>, r: seq<nat>)
    requires Choices(|s|, r) && s != []
    ensures var u := SwapFirst(s, r[0]);
      |u| == |s| && Shuffled(s, r) == [u[0]] + Shuffled(u[1..], r[1..])
      && Shuffled(s, r)[0] == u[0] && Shuffled(s, r)[1..] == Shuffled(u[1..], r[1..])
  {
  }

  lemma SwapFirstDistinct(s: seq<nat>, j: nat)
    requires j < |s| && Distinct(s)
    ensures Distinct(SwapFirst(s, j)[1..])
  {
  }

  /** Different choices give different results: no permutation is produced twice. */
  lemma {:induction false} ShuffleInjective(s: seq<nat>, r: seq<nat>, r': seq<nat>)
    requires Distinct(s) && Choices(|s|, r) && Choices(|s|, r')
    requires Shuffled(s, r) == Shuffled(s, r')
    ensures r == r'
    decreases |s|
  {
    if s != [] {
      var u, u' := SwapFirst(s, r[0]), SwapFirst(s, r'[0]);
      assert Shuffled(s, r)[0] == s[r[0]] && Shuffled(s, r')[0] == s[r'[0]];
      assert r[0] == r'[0];
      assert Shuffled(s, r)[1..] == Shuffled(u[1..], r[1..]);
      assert Shuffled(s, r')[1..] == Shuffled(u'[1..], r'[1..]);
      SwapFirstDistinct(s, r[0]);
      ShuffleInjective(u[1..], r[1..], r'[1..]);
    }
  }

  /** The index of x in s, or |s|. */
  function IndexOf(s: seq<nat>, x: nat): (i: nat)
    ensures i <= |s| && (i < |s| ==> s[i] == x) && (x in s ==> i < |s|)
  {
    if s == [] || s[0] == x then 0 else 1 + IndexOf(s[1..], x)
  }

  /** The choices that lead from s to its permutation t. */
  function ChoicesFor(s: seq<nat>, t: seq<nat>): (r: seq<nat>)
    requires multiset(s) == multiset(t)
    ensures Choices(|s|, r)
    decreases |s|
  {
    SameLength(s, t);
    if s == [] then []
    else
      var j := IndexOf(s, t[0]);
      RemoveFirst(s, t);
      [j] + ChoicesFor(SwapFirst(s, j)[1..], t[1..])
  }

  lemma SameLength(s: seq<nat>, t: seq<nat>)
    requires multiset(s) == multiset(t)
    ensures |s| == |t|
  {
    assert |multiset(s)| == |s| && |multiset(t)| == |t|;
  }

  /** Moving the first element of t to the front of s leaves permutations of each other. */
  lemma RemoveFirst(s: seq<nat>, t: seq<nat>)
    requires multiset(s) == multiset(t) && t != []
    ensures var j := IndexOf(s, t[0]);
      j < |s| && SwapFirst(s, j)[0] == t[0] && multiset(SwapFirst(s, j)[1..]) == multiset(t[1..])
  {
    assert t[0] in multiset(s);
    var j := IndexOf(s, t[0]);
    var u := SwapFirst(s, j);
    SwapFirstPermutes(s, j);
    ConsMultiset(u);
    ConsMultiset(t);
    CancelSingle(u[0], multiset(u[1..]), multiset(t[1..]));
  }

  lemma CancelSingle(x: nat, a: multiset<nat>, b: multiset<nat>)
    requires multiset{x} + a == multiset{x} + b
    ensures a == b
  {
    assert a == multiset{x} + a - multiset{x};
    assert b == multiset{x} + b - multiset{x};
  }

  /** Every permutation is produced ... */
  lemma {:induction false} ShuffleSurjective(s: seq<nat>, t: seq<nat>)
    requires multiset(s) == multiset(t)
    ensures Shuffled(s, ChoicesFor(s, t)) == t
    decreases |s|
  {
    SameLength(s, t);
    if s != [] {
      var j := IndexOf(s, t[0]);
      RemoveFirst(s, t);
      var u := SwapFirst(s, j);
      ShuffleSurjective(u[1..], t[1..]);
      var r := ChoicesFor(s, t);
      assert r[1..] == ChoicesFor(u[1..], t[1..]);
      ShuffleUnfold(s, r);
      assert t == [t[0]] + t[1..];
    }
  }

  /** ... by exactly one sequence of choices. */
  lemma ShuffleBijective(s: seq<nat>, t: seq<nat>, r: seq<nat>)
    requires Distinct(s) && multiset(s) == multiset(t) && Choices(|s|, r)
    ensures Shuffled(s, r) == t <==> r == ChoicesFor(s, t)
  {
    ShuffleSurjective(s, t);
    if Shuffled(s, r) == t {
      ShuffleInjective(s, r, ChoicesFor(s, t));
    }
  }

  // ---------- Indexes ----------

  /** Every choice can be drawn, and a draw counts by its remainder: so every permutation of
      fewer than 2^64 elements comes out of the in-place loop for some 64-bit draws, and draws
      lead to the same permutation exactly when their remainders agree. */
  lemma ShuffleFromDraws(s: seq<nat>, t: seq<nat>, draws: seq<nat>)
    requires Distinct(s) && multiset(s) == multiset(t) && |draws| == |s|
    ensures Shuffled(s, Residues(|s|, draws)) == t
       <==> forall i :: 0 <= i < |s| ==> draws[i] % (|s| - i) == ChoicesFor(s, t)[i]
    ensures Shuffled(s, Residues(|s|, ChoicesFor(s, t))) == t
  {
    var n := |s|;
    var r := Residues(n, draws);
    hide Shuffled, ChoicesFor;
    ShuffleBijective(s, t, r);
    forall i | 0 <= i < n
      ensures r[i] == draws[i] % (n - i)
    {
      ResiduesAt(n, draws, i);
    }
    var c := ChoicesFor(s, t);
    forall i | 0 <= i < n
      ensures Residues(n, c)[i] == c[i]
    {
      ResiduesAt(n, c, i);
      SmallRemainder(c[i], n - i);
    }
    assert Residues(n, c) == c;
    ShuffleSurjective(s, t);
  }

  lemma SmallRemainder(c: nat, m: nat)
    requires c < m
    ensures c % m == c
  {
  }

  /** s lists every test case below n once. */
  predicate Indexes(s: seq<nat>, n: nat) {
    |s| == n && Distinct(s) && (forall x :: x in s ==> x < n) && (forall t :: 0 <= t < n ==> t in s)
  }

  lemma SameElements(s: seq<nat>, t: seq<nat>)
    requires multiset(s) == multiset(t)
    ensures forall x :: x in s <==> x in t
  {
    forall x
      ensures x in s <==> x in t
    {
      assert x in s <==> x in multiset(s);
      assert x in t <==> x in multiset(t);
    }
  }

  lemma {:induction false} ShuffleDistinct(s: seq<nat>, r: seq<nat>)
    requires Choices(|s|, r) && Distinct(s)
    ensures Distinct(Shuffled(s, r))
    decreases |s|
  {
    if s != [] {
      ShuffleUnfold(s, r);
      SwapFirstDistinct(s, r[0]);
      var u := SwapFirst(s, r[0]);
      hide Shuffled, SwapFirst;
      ShuffleDistinct(u[1..], r[1..]);
      ShufflePermutes(u[1..], r[1..]);
      SameElements(Shuffled(u[1..], r[1..]), u[1..]);
      assert u[0] !in u[1..];
    }
  }

  lemma ShuffleIndexes(s: seq<nat>, r: seq<nat>, n: nat)
    requires Indexes(s, n) && Choices(n, r)
    ensures Indexes(Shuffled(s, r), n)
  {
    hide Shuffled;
    ShuffleDistinct(s, r);
    ShufflePermutes(s, r);
    SameElements(Shuffled(s, r), s);
  }

  // ---------- Timing_Test::execute_evaluation ----------

  /** One run over the shuffled test cases.  `duration(run, t)` is what measuring test case t
      during that run takes. */
  method MeasureRun(indexes: array<nat>, results: array<nat>, run: nat, duration: (nat, nat) -> nat)
    requires Indexes(indexes[..], results.Length) && indexes != results
    modifies results
    ensures forall t :: 0 <= t < results.Length ==> results[t] == duration(run, t)
  {
    ghost var s := indexes[..];
    assert forall i :: 0 <= i < |s| ==> s[i] in s;
    for k := 0 to indexes.Length
      invariant indexes[..] == s
      invariant forall i :: 0 <= i < k ==> results[s[i]] == duration(run, s[i])
    {
      var testcase := indexes[k];
      assert testcase == s[k] && s[k] in s;
      results[testcase] := duration(run, testcase);
    }
    forall t | 0 <= t < results.Length
      ensures results[t] == duration(run, t)
    {
      assert t in s;
      var i :| 0 <= i < |s| && s[i] == t;
    }
  }

  /** Every series grows by the result of the run. */
  method AppendAll(all: array<seq<nat>>, results: array<nat>)
    requires all.Length == results.Length
    modifies all
    ensures forall t :: 0 <= t < all.Length ==> all[t] == old(all[t]) + [results[t]]
  {
    for i := 0 to all.Length
      invariant forall t :: 0 <= t < i ==> all[t] == old(all[t]) + [results[t]]
      invariant forall t :: i <= t < all.Length ==> all[t] == old(all[t])
    {
      all[i] := all[i] + [results[i]];
    }
  }

  /** The measurements of test case t in runs [from, from + count). */
  function Series(duration: (nat, nat) -> nat, t: nat, from: nat, count: nat): (r: seq<nat>)
    ensures |r| == count
  {
    seq(count, k requires 0 <= k => duration(from + k, t))
  }

  /** `execute_evaluation`: the k-th result of each test case is its measurement in the k-th
      run after the warm-up, whatever the shuffles.  `draws` are the random words of each run. */
  method ExecuteEvaluation(testcases: nat, warmupRuns: nat, measurementRuns: nat,
                           draws: seq<seq<nat>>, duration: (nat, nat) -> nat)
      returns (ok: bool, all: array<seq<nat>>)
    requires |draws| == warmupRuns + measurementRuns && forall r :: 0 <= r < |draws| ==> |draws[r]| == testcases
    ensures ok <==> warmupRuns <= 1000000 && measurementRuns <= 100000000
    ensures ok ==> all.Length == testcases
    ensures ok ==> forall t :: 0 <= t < testcases ==> all[t] == Series(duration, t, warmupRuns, measurementRuns)
  {
    hide Indexes, Shuffled, Residues;
    all := new seq<nat>[testcases](_ => []);
    if warmupRuns > 1000000 || measurementRuns > 100000000 {
      return false, all;
    }
    var results := new nat[testcases];
    var indexes := new nat[testcases](i => i);
    IotaIndexes(indexes[..], testcases);
    var totalRuns := 0;
    while totalRuns < warmupRuns + measurementRuns
      invariant totalRuns <= warmupRuns + measurementRuns
      invariant Indexes(indexes[..], testcases)
      invariant forall t :: 0 <= t < testcases ==>
        all[t] == Series(duration, t, warmupRuns, if totalRuns <= warmupRuns then 0 else totalRuns - warmupRuns)
    {
      ShuffleIndexes(indexes[..], Residues(testcases, draws[totalRuns]), testcases);
      ShuffleIdx(indexes, draws[totalRuns]);
      MeasureRun(indexes, results, totalRuns, duration);
      totalRuns := totalRuns + 1;
      if totalRuns > warmupRuns {
        AppendAll(all, results);
        SeriesStep(duration, warmupRuns, totalRuns - 1 - warmupRuns);
      }
    }
    ok := true;
  }

  lemma IotaIndexes(s: seq<nat>, n: nat)
    requires |s| == n && forall i :: 0 <= i < n ==> s[i] == i
    ensures Indexes(s, n)
  {
    forall t | 0 <= t < n
      ensures t in s
    {
      assert s[t] == t;
    }
  }

  lemma SeriesStep(duration: (nat, nat) -> nat, from: nat, count: nat)
    ensures forall t ::
      Series(duration, t, from, count) + [duration(from + count, t)] == Series(duration, t, from, count + 1)
  {
  }

  lemma SeriesAt(duration: (nat, nat) -> nat, t: nat, from: nat, count: nat, k: nat)
    requires k < count
    ensures Series(duration, t, from, count)[k] == duration(from + k, t)
  {
  }

  // ---------- The MARVIN test ----------

  /** The inner loop of one MARVIN run: exactly one more measurement for every test case.  The
      assertion is the program's own. */
  method MarvinRun(indexes: array<nat>, measurements: array<seq<nat>>, r: nat, duration: (nat, nat) -> nat)
    requires Indexes(indexes[..], measurements.Length)
    requires forall t :: 0 <= t < measurements.Length ==> measurements[t] == Series(duration, t, 0, r)
    modifies measurements
    ensures forall t :: 0 <= t < measurements.Length ==> measurements[t] == Series(duration, t, 0, r + 1)
  {
    SeriesStep(duration, 0, r);
    ghost var s := indexes[..];
    hide Series;
    for k := 0 to indexes.Length
      invariant indexes[..] == s
      invariant forall t :: 0 <= t < measurements.Length ==>
        measurements[t] == Series(duration, t, 0, if t in s[..k] then r + 1 else r)
    {
      var testcase := indexes[k];
      assert testcase == s[k] && s[k] in s && s[k] !in s[..k];
      assert |measurements[testcase]| == r;
      measurements[testcase] := measurements[testcase] + [duration(r, testcase)];
      assert s[..k + 1] == s[..k] + [s[k]];
    }
    assert s[..indexes.Length] == s;
  }

  /** The runs that are measured when `completed` of them are counted: an early exit happens
      after one more has been measured. */
  function RunsMeasured(completed: nat, measurementRuns: nat): nat {
    if completed < measurementRuns then completed + 1 else completed
  }

  /** The measurement loop.  `interrupted(r)` says whether the signal had arrived when run r
      ended; the run that is interrupted is measured but not counted. */
  method MarvinMeasure(testcases: nat, measurementRuns: nat, draws: seq<seq<nat>>,
                       interrupted: nat -> bool, duration: (nat, nat) -> nat)
      returns (measurements: array<seq<nat>>, runsCompleted: nat)
    requires |draws| == measurementRuns && forall r :: 0 <= r < |draws| ==> |draws[r]| == testcases
    ensures measurements.Length == testcases && runsCompleted <= measurementRuns
    ensures forall r :: 0 <= r < runsCompleted ==> !interrupted(r)
    ensures runsCompleted < measurementRuns ==> interrupted(runsCompleted)
    ensures forall t :: 0 <= t < testcases ==>
      measurements[t] == Series(duration, t, 0, RunsMeasured(runsCompleted, measurementRuns))
  {
    hide Indexes, Shuffled, Residues;
    var indexes := new nat[testcases](i => i);
    IotaIndexes(indexes[..], testcases);
    measurements := new seq<nat>[testcases](_ => []);
    runsCompleted := measurementRuns;
    var r := 0;
    while r != measurementRuns
      invariant 0 <= r <= measurementRuns && runsCompleted == measurementRuns
      invariant forall q :: 0 <= q < r ==> !interrupted(q)
      invariant Indexes(indexes[..], testcases)
      invariant forall t :: 0 <= t < testcases ==> measurements[t] == Series(duration, t, 0, r)
    {
      ShuffleIndexes(indexes[..], Residues(testcases, draws[r]), testcases);
      ShuffleIdx(indexes, draws[r]);
      MarvinRun(indexes, measurements, r, duration);
      if interrupted(r) {
        runsCompleted := r;
        return;
      }
      r := r + 1;
    }
  }

  /** `report_results`: one row per completed run, one column per test case, in file order. */
  method ReportResults(measurements: array<seq<nat>>, runsCompleted: nat) returns (rows: seq<seq<nat>>)
    requires forall t :: 0 <= t < measurements.Length ==> runsCompleted <= |measurements[t]|
    ensures |rows| == runsCompleted
    ensures forall r :: 0 <= r < runsCompleted ==> |rows[r]| == measurements.Length
    ensures forall r, t :: 0 <= r < runsCompleted && 0 <= t < measurements.Length ==> rows[r][t] == measurements[t][r]
  {
    rows := [];
    for r := 0 to runsCompleted
      invariant |rows| == r
      invariant forall q :: 0 <= q < r ==> |rows[q]| == measurements.Length
      invariant forall q, t :: 0 <= q < r && 0 <= t < measurements.Length ==> rows[q][t] == measurements[t][q]
    {
      var row := [];
      for t := 0 to measurements.Length
        invariant |row| == t && forall u :: 0 <= u < t ==> row[u] == measurements[u][r]
      {
        row := row + [measurements[t][r]];
      }
      rows := rows + [row];
    }
  }

  /** The report of a MARVIN test: row r, column t is the measurement of test case t in run r.
      The report holds every measurement exactly when no run is interrupted; otherwise those of
      the first interrupted run are missing. */
  method MarvinReport(testcases: nat, measurementRuns: nat, draws: seq<seq<nat>>,
                      interrupted: nat -> bool, duration: (nat, nat) -> nat)
      returns (rows: seq<seq<nat>>, measurements: array<seq<nat>>)
    requires |draws| == measurementRuns && forall r :: 0 <= r < |draws| ==> |draws[r]| == testcases
    ensures |rows| <= measurementRuns
    ensures forall r :: 0 <= r < |rows| ==> |rows[r]| == testcases
    ensures forall r, t :: 0 <= r < |rows| && 0 <= t < testcases ==> rows[r][t] == duration(r, t)
    ensures |rows| < measurementRuns ==> interrupted(|rows|)
    ensures forall r :: 0 <= r < |rows| ==> !interrupted(r)
    ensures measurements.Length == testcases
    ensures forall t :: 0 <= t < testcases ==>
      measurements[t] == Series(duration, t, 0, RunsMeasured(|rows|, measurementRuns))
    ensures |rows| == measurementRuns <==> forall r :: 0 <= r < measurementRuns ==> !interrupted(r)
    ensures testcases > 0 ==>
      ((forall t :: 0 <= t < testcases ==> |measurements[t]| == |rows|) <==>
       (forall r :: 0 <= r < measurementRuns ==> !interrupted(r)))
  {
    var runsCompleted;
    measurements, runsCompleted := MarvinMeasure(testcases, measurementRuns, draws, interrupted, duration);
    rows := ReportResults(measurements, runsCompleted);
    forall r, t | 0 <= r < |rows| && 0 <= t < testcases
      ensures |rows[r]| == testcases && rows[r][t] == duration(r, t)
    {
      SeriesAt(duration, t, 0, |measurements[t]|, r);
    }
    if testcases > 0 {
      assert |measurements[0]| == RunsMeasured(|rows|, measurementRuns);
    }
  }
}

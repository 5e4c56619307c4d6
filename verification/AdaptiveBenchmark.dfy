/** Candidate selection of the perfConfig search. Times are reals; the timer is an arbitrary
    oracle that may answer differently on every call. */
module AdaptiveBenchmark {
  import opened Wrappers

  /** A double the timer may hand back: nothing, a non-finite value, or milliseconds. */
  datatype Measured = NoTime | NotFinite | Ms(ms: real)

  /** A usable time, or the infinity that marks a failed or skipped measurement. */
  datatype Time = Infinite | Finite(ms: real)

  datatype Call = Call(index: nat, warmup: nat, bundle: nat, runs: nat)

  /** Answer to the `n`-th call of the whole selection. */
  type Timer = (nat, Call) -> Measured

  datatype Options = Options(topK: nat, preciseMs: nat, coarseMs: nat, preciseMinBundle: nat,
                             maxRuns: nat, coarseMaxRuns: nat, coarseCutoffFactor: nat)

  datatype Selection = Selection(winner: nat, winnerMs: real, coarse: seq<Time>, precise: seq<Time>)

  const MIN_LAUNCH_MS: real := 0.001

  function MaxReal(a: real, b: real): real {
    if a < b then b else a
  }

  function MaxNat(a: nat, b: nat): nat {
    if a < b then b else a
  }

  function TimeOrInvalid(m: Measured): Time {
    if m.Ms? && m.ms >= 0.0 then Finite(m.ms) else Infinite
  }

  /** Milliseconds one run of `bundle` launches is taken to last. */
  function RunMs(launchMs: real, bundle: nat): (r: real)
    ensures r >= MIN_LAUNCH_MS && r >= launchMs && r >= launchMs * MaxNat(bundle, 1) as real
  {
    var each, n := MaxReal(launchMs, MIN_LAUNCH_MS), MaxNat(bundle, 1) as real;
    assert each * n >= each && each * n >= launchMs * n && launchMs * n <= each * n;
    each * n
  }

  /** `computeBenchmarkRuns`. */
  function BenchmarkRuns(budgetMs: nat, launchMs: real, bundle: nat, maxRuns: nat): nat {
    var runs := budgetMs as real / RunMs(launchMs, bundle);
    var cap := MaxNat(maxRuns, 1) as real;
    if runs < 1.0 then 1 else if runs > cap then cap.Floor else runs.Floor
  }

  lemma QuotientBound(x: real, total: real, each: real)
    requires each > 0.0
    ensures x <= total / each <==> x * each <= total
  {
    var q := total / each;
    assert q * each == total;
    assert (x - q) * each == x * each - q * each;
    if x > q { assert (x - q) * each > 0.0; } else { assert (q - x) * each >= 0.0; }
  }

  lemma ProductGrows(factor: real, a: real, b: real)
    requires factor >= 0.0 && a <= b
    ensures factor * a <= factor * b
  {
    assert factor * b - factor * a == factor * (b - a);
  }

  lemma Regroup(a: real, b: real, c: real)
    ensures a * (b * c) == b * (c * a)
  {
  }

  /** The run count is the largest within the cap that keeps the budget, or 1. */
  lemma RunsFitBudget(budgetMs: nat, launchMs: real, bundle: nat, maxRuns: nat, each: real)
    requires each == (if launchMs < 0.001 then 0.001 else launchMs) * (if bundle == 0 then 1.0 else bundle as real)
    ensures each > 0.0
    ensures var r, cap := BenchmarkRuns(budgetMs, launchMs, bundle, maxRuns), if maxRuns == 0 then 1 else maxRuns;
            && 1 <= r <= cap
            && (r > 1 ==> r as real * each <= budgetMs as real)
            && (r < cap ==> (r + 1) as real * each > budgetMs as real)
  {
    assert each == RunMs(launchMs, bundle);
    var r, cap := BenchmarkRuns(budgetMs, launchMs, bundle, maxRuns), MaxNat(maxRuns, 1) as real;
    QuotientBound(r as real, budgetMs as real, each);
    QuotientBound((r + 1) as real, budgetMs as real, each);
  }

  // ---- ranking ----

  /** Strictly before in the (coarse time, index) order. */
  predicate Before(coarse: seq<Time>, i: nat, j: nat)
    requires i < |coarse| && j < |coarse| && coarse[i].Finite? && coarse[j].Finite?
  {
    coarse[i].ms < coarse[j].ms || (coarse[i].ms == coarse[j].ms && i < j)
  }

  ghost predicate AllFinite(coarse: seq<Time>, s: seq<nat>) {
    forall k | 0 <= k < |s| :: s[k] < |coarse| && coarse[s[k]].Finite?
  }

  ghost predicate Ranked(coarse: seq<Time>, s: seq<nat>) {
    AllFinite(coarse, s) && forall j, k | 0 <= j < k < |s| :: Before(coarse, s[j], s[k])
  }

  /** The finite candidates ahead of `i`. */
  ghost function Ahead(coarse: seq<Time>, i: nat): set<nat>
    requires i < |coarse| && coarse[i].Finite?
  {
    set j: nat | j < |coarse| && coarse[j].Finite? && Before(coarse, j, i)
  }

  /** Slowest coarse time the precise pass still considers, given the best one. */
  function Cutoff(options: Options, bestMs: real): (r: real)
    ensures options.coarseCutoffFactor > 0 ==> r >= bestMs
  {
    var factor, floor := options.coarseCutoffFactor as real, MaxReal(bestMs, MIN_LAUNCH_MS);
    assert options.coarseCutoffFactor > 0 ==> (factor - 1.0) * floor >= 0.0;
    factor * floor
  }

  /** Which candidates the precise pass times: by their rank and their distance from the
      best, without any sorting. */
  ghost predicate Chosen(options: Options, coarse: seq<Time>, i: nat) {
    && i < |coarse| && coarse[i].Finite?
    && (options.topK > 0 ==> |Ahead(coarse, i)| < options.topK)
    && (options.topK > 0 && options.coarseCutoffFactor > 0 ==>
          forall b: nat | b < |coarse| && coarse[b].Finite? && Ahead(coarse, b) == {} ::
            coarse[i].ms <= Cutoff(options, coarse[b].ms))
  }

  lemma RankedOrder(coarse: seq<Time>, s: seq<nat>, j: nat, k: nat)
    requires Ranked(coarse, s) && j < |s| && k < |s|
    ensures Before(coarse, s[j], s[k]) <==> j < k
  {
    if j > k { assert Before(coarse, s[k], s[j]); }
  }

  lemma {:induction false} FrontSize(coarse: seq<Time>, s: seq<nat>, k: nat)
    requires Ranked(coarse, s) && k <= |s|
    ensures |set j | 0 <= j < k :: s[j]| == k
  {
    if k > 0 {
      FrontSize(coarse, s, k - 1);
      var a, b := set j | 0 <= j < k - 1 :: s[j], set j | 0 <= j < k :: s[j];
      assert b == a + {s[k - 1]};
      assert s[k - 1] !in a;
    }
  }

  /** In a ranked list of all finite candidates, position is rank. */
  lemma PositionIsRank(coarse: seq<Time>, s: seq<nat>, k: nat)
    requires Ranked(coarse, s) && k < |s|
    requires forall i: nat | i < |coarse| && coarse[i].Finite? :: i in s
    ensures Ahead(coarse, s[k]) == (set j | 0 <= j < k :: s[j]) && |Ahead(coarse, s[k])| == k
  {
    var front := set j | 0 <= j < k :: s[j];
    forall i | i in Ahead(coarse, s[k]) ensures i in front {
      var j :| 0 <= j < |s| && s[j] == i;
      RankedOrder(coarse, s, j, k);
    }
    forall i | i in front ensures i in Ahead(coarse, s[k]) {
      var j :| 0 <= j < k && s[j] == i;
    }
    FrontSize(coarse, s, k);
  }

  // ---- sorting ----

  predicate Candidate(coarse: seq<Time>, i: nat) {
    i < |coarse| && coarse[i].Finite?
  }

  function Insert(coarse: seq<Time>, s: seq<nat>, i: nat): seq<nat>
    requires Candidate(coarse, i) && AllFinite(coarse, s)
  {
    if s == [] || Before(coarse, s[|s| - 1], i) then s + [i]
    else Insert(coarse, s[..|s| - 1], i) + [s[|s| - 1]]
  }

  lemma {:induction false} InsertKeepsRanked(coarse: seq<Time>, s: seq<nat>, i: nat)
    requires Candidate(coarse, i) && Ranked(coarse, s) && i !in s
    ensures var r := Insert(coarse, s, i);
            Ranked(coarse, r) && forall j :: j in r <==> j in s || j == i
  {
    if s != [] && !Before(coarse, s[|s| - 1], i) {
      var last, front := s[|s| - 1], s[..|s| - 1];
      InsertKeepsRanked(coarse, front, i);
      var r := Insert(coarse, front, i);
      forall k | 0 <= k < |r| ensures Before(coarse, r[k], last) {
        assert r[k] in r;
        if r[k] != i { var m :| 0 <= m < |front| && front[m] == r[k]; assert s[m] == r[k]; }
      }
      assert s == front + [last];
    }
  }

  /** `std::sort` by (coarse time, index). */
  function SortByCoarse(coarse: seq<Time>, s: seq<nat>): (r: seq<nat>)
    requires AllFinite(coarse, s) && forall j, k | 0 <= j < k < |s| :: s[j] != s[k]
    ensures Ranked(coarse, r) && forall j :: j in r <==> j in s
  {
    if s == [] then []
    else
      var n := |s| - 1;
      assert s == s[..n] + [s[n]];
      var front := SortByCoarse(coarse, s[..n]);
      InsertKeepsRanked(coarse, front, s[n]);
      Insert(coarse, front, s[n])
  }

  // ---- coarse pass ----

  /** The coarse time of every candidate, and the calls that were made to get it. */
  datatype Pass = Pass(times: seq<Time>, calls: seq<Call>)

  function CoarseRuns(options: Options, estimateMs: real): nat {
    BenchmarkRuns(options.coarseMs, estimateMs, 1, options.coarseMaxRuns)
  }

  function CoarseStep(p: Pass, index: nat, options: Options, timer: Timer): Pass {
    var once := Call(index, 1, 1, 1);
    var estimate := TimeOrInvalid(timer(|p.calls|, once));
    if estimate.Infinite? || CoarseRuns(options, estimate.ms) == 1 then
      Pass(p.times + [estimate], p.calls + [once])
    else
      var again := Call(index, 0, 1, CoarseRuns(options, estimate.ms));
      Pass(p.times + [TimeOrInvalid(timer(|p.calls| + 1, again))], p.calls + [once, again])
  }

  function CoarsePass(n: nat, options: Options, timer: Timer): (p: Pass)
    ensures |p.times| == n
  {
    if n == 0 then Pass([], []) else CoarseStep(CoarsePass(n - 1, options, timer), n - 1, options, timer)
  }

  lemma StepAppends(p: Pass, index: nat, options: Options, timer: Timer)
    ensures var r := CoarseStep(p, index, options, timer);
            && |r.calls| > |p.calls| && r.calls[..|p.calls|] == p.calls
            && (forall j | |p.calls| <= j < |r.calls| :: r.calls[j].index == index)
            && r.times == p.times + [TimeOrInvalid(timer(|r.calls| - 1, r.calls[|r.calls| - 1]))]
  {
  }

  lemma {:induction false} CallsBelow(n: nat, options: Options, timer: Timer, j: nat)
    requires j < |CoarsePass(n, options, timer).calls|
    ensures CoarsePass(n, options, timer).calls[j].index < n
  {
    hide CoarseStep;
    var before := CoarsePass(n - 1, options, timer);
    StepAppends(before, n - 1, options, timer);
    if j < |before.calls| { CallsBelow(n - 1, options, timer, j); }
  }

  /** Candidates are called in index order, and a coarse time is the answer to the
      candidate's last call. */
  lemma {:induction false} LastCallDecides(n: nat, options: Options, timer: Timer, i: nat) returns (k: nat)
    requires i < n
    ensures var p := CoarsePass(n, options, timer);
            && k < |p.calls| && p.calls[k].index == i
            && p.times[i] == TimeOrInvalid(timer(k, p.calls[k]))
            && forall j | 0 <= j < |p.calls| :: j > k <==> p.calls[j].index > i
  {
    hide CoarseStep, TimeOrInvalid;
    var before, p := CoarsePass(n - 1, options, timer), CoarsePass(n, options, timer);
    StepAppends(before, n - 1, options, timer);
    if i < n - 1 { k := LastCallDecides(n - 1, options, timer, i); } else { k := |p.calls| - 1; }
    forall j | 0 <= j < |p.calls| ensures j > k <==> p.calls[j].index > i {
      if j < |before.calls| { CallsBelow(n - 1, options, timer, j); }
    }
  }

  /** Exactly which coarse calls are made for candidate `i`, from call `k` on: one single run, and, exactly
      when its answer is usable and at least two runs are allowed and fit the budget, one call with as many
      runs as do. The last answer, if usable, is its coarse time. */
  ghost predicate CalledFor(options: Options, timer: Timer, p: Pass, i: nat, k: nat) {
    && i < |p.times| && k < |p.calls| && p.calls[k] == Call(i, 1, 1, 1)
    && (forall j | 0 <= j < k :: p.calls[j].index < i)
    && var first := timer(k, Call(i, 1, 1, 1));
       var launchMs := if first.Ms? && first.ms >= 0.001 then first.ms else 0.001;
       if first.Ms? && first.ms >= 0.0 && options.coarseMaxRuns >= 2 && 2.0 * launchMs <= options.coarseMs as real then
         && k + 1 < |p.calls| && p.calls[k + 1] == Call(i, 0, 1, p.calls[k + 1].runs)
         && 2 <= p.calls[k + 1].runs <= options.coarseMaxRuns
         && p.calls[k + 1].runs as real * launchMs <= options.coarseMs as real
         && (p.calls[k + 1].runs < options.coarseMaxRuns ==>
               (p.calls[k + 1].runs + 1) as real * launchMs > options.coarseMs as real)
         && (forall j | k + 1 < j < |p.calls| :: p.calls[j].index > i)
         && var again := timer(k + 1, p.calls[k + 1]);
            p.times[i] == if again.Ms? && again.ms >= 0.0 then Finite(again.ms) else Infinite
       else
         && (forall j | k < j < |p.calls| :: p.calls[j].index > i)
         && p.times[i] == if first.Ms? && first.ms >= 0.0 then Finite(first.ms) else Infinite
  }

  lemma SecondRuns(options: Options, ms: real, launchMs: real)
    requires launchMs == if ms < 0.001 then 0.001 else ms
    ensures var r := CoarseRuns(options, ms);
            if options.coarseMaxRuns >= 2 && 2.0 * launchMs <= options.coarseMs as real then
              && 2 <= r <= options.coarseMaxRuns && r as real * launchMs <= options.coarseMs as real
              && (r < options.coarseMaxRuns ==> (r + 1) as real * launchMs > options.coarseMs as real)
            else r == 1
  {
    var r := CoarseRuns(options, ms);
    RunsFitBudget(options.coarseMs, ms, 1, options.coarseMaxRuns, launchMs);
    hide BenchmarkRuns;
    if r > 1 { ProductGrows(launchMs, 2.0, r as real); } else { assert (r + 1) as real * launchMs == 2.0 * launchMs; }
  }

  lemma StepCalls(p: Pass, index: nat, options: Options, timer: Timer)
    requires |p.times| == index && forall j | 0 <= j < |p.calls| :: p.calls[j].index < index
    ensures CalledFor(options, timer, CoarseStep(p, index, options, timer), index, |p.calls|)
  {
    hide CoarseRuns;
    var first := timer(|p.calls|, Call(index, 1, 1, 1));
    if first.Ms? && first.ms >= 0.0 {
      SecondRuns(options, first.ms, if first.ms < 0.001 then 0.001 else first.ms);
    }
  }

  /** Calls for later candidates do not matter. */
  lemma CalledForStays(options: Options, timer: Timer, p: Pass, i: nat, k: nat, q: Pass)
    requires CalledFor(options, timer, p, i, k) && p.calls <= q.calls && p.times <= q.times
    requires forall j | |p.calls| <= j < |q.calls| :: q.calls[j].index > i
    ensures CalledFor(options, timer, q, i, k)
  {
  }

  lemma {:induction false} CoarseCalls(n: nat, options: Options, timer: Timer, i: nat) returns (k: nat)
    requires i < n
    ensures CalledFor(options, timer, CoarsePass(n, options, timer), i, k)
  {
    hide CoarseStep, CalledFor;
    var before := CoarsePass(n - 1, options, timer);
    StepAppends(before, n - 1, options, timer);
    if i < n - 1 {
      k := CoarseCalls(n - 1, options, timer, i);
      CalledForStays(options, timer, before, i, k, CoarsePass(n, options, timer));
    } else {
      k := |before.calls|;
      forall j | 0 <= j < k ensures before.calls[j].index < i { CallsBelow(n - 1, options, timer, j); }
      StepCalls(before, n - 1, options, timer);
    }
  }

  /** A call with more than one run is preceded by its candidate's single-run estimate, and its
      runs all fit the coarse budget by that estimate. */
  lemma {:induction false} CoarseRunsFit(n: nat, options: Options, timer: Timer, k: nat)
    requires k < |CoarsePass(n, options, timer).calls|
    ensures var calls := CoarsePass(n, options, timer).calls;
            && calls[k].bundle == 1 && 1 <= calls[k].runs <= (if options.coarseMaxRuns == 0 then 1 else options.coarseMaxRuns)
            && (calls[k].runs > 1 ==>
                  && k > 0 && calls[k - 1] == Call(calls[k].index, 1, 1, 1)
                  && var estimate := timer(k - 1, calls[k - 1]);
                     && estimate.Ms? && estimate.ms >= 0.0
                     && calls[k].runs as real * (if estimate.ms < 0.001 then 0.001 else estimate.ms) <= options.coarseMs as real)
  {
    hide BenchmarkRuns, RunMs;
    var before := CoarsePass(n - 1, options, timer);
    if k < |before.calls| {
      CoarseRunsFit(n - 1, options, timer, k);
    } else {
      var estimate := timer(|before.calls|, Call(n - 1, 1, 1, 1));
      if estimate.Ms? && estimate.ms >= 0.0 {
        RunsFitBudget(options.coarseMs, estimate.ms, 1, options.coarseMaxRuns,
                      if estimate.ms < 0.001 then 0.001 else estimate.ms);
      }
    }
  }

  // ---- precise pass ----

  /** One bundle size for the whole precise pass, from the best coarse time. */
  function Bundle(options: Options, referenceMs: real): nat
    requires options.maxRuns > 0
  {
    var fit := options.preciseMs as real / (MaxReal(referenceMs, MIN_LAUNCH_MS) * options.maxRuns as real);
    MaxReal(fit, options.preciseMinBundle as real).Floor
  }

  lemma BundleBounds(options: Options, referenceMs: real, launchMs: real)
    requires options.maxRuns > 0 && launchMs == if referenceMs < 0.001 then 0.001 else referenceMs
    ensures var b, each := Bundle(options, referenceMs), launchMs * options.maxRuns as real;
            && b >= options.preciseMinBundle
            && (b > options.preciseMinBundle ==> b as real * each <= options.preciseMs as real)
            && (b + 1) as real * each > options.preciseMs as real
  {
    var b, each := Bundle(options, referenceMs), launchMs * options.maxRuns as real;
    assert launchMs == MaxReal(referenceMs, MIN_LAUNCH_MS) && each > 0.0;
    QuotientBound(b as real, options.preciseMs as real, each);
    QuotientBound((b + 1) as real, options.preciseMs as real, each);
  }

  /** The bundle is the largest with which the fastest candidate can use every precise run within the
      budget, but never below its floor. */
  lemma BundleFitsFastest(options: Options, referenceMs: real, launchMs: real)
    requires options.maxRuns > 0 && launchMs == if referenceMs < 0.001 then 0.001 else referenceMs
    ensures var b := Bundle(options, referenceMs);
            && b >= options.preciseMinBundle
            && (b > options.preciseMinBundle ==>
                  && options.maxRuns as real * (b as real * launchMs) <= options.preciseMs as real
                  && BenchmarkRuns(options.preciseMs, referenceMs, b, options.maxRuns) == options.maxRuns)
            && options.maxRuns as real * ((b + 1) as real * launchMs) > options.preciseMs as real
  {
    var b, cap := Bundle(options, referenceMs), options.maxRuns as real;
    BundleBounds(options, referenceMs, launchMs);
    hide Bundle;
    Regroup(cap, b as real, launchMs);
    Regroup(cap, (b + 1) as real, launchMs);
    if b > options.preciseMinBundle {
      QuotientBound(cap, options.preciseMs as real, RunMs(referenceMs, b));
      assert RunMs(referenceMs, b) == launchMs * b as real;
    }
  }

  ghost predicate NoneFinite(times: seq<Time>) {
    forall i | 0 <= i < |times| :: times[i].Infinite?
  }

  predicate Trivial(n: nat, options: Options) {
    n == 0 || options.maxRuns == 0 || options.coarseMaxRuns == 0
  }

  /** `order` lists every chosen candidate once, best coarse time first, and `calls` are the
      precise calls in that order. */
  ghost predicate TimedInRankOrder(options: Options, coarse: seq<Time>, order: seq<nat>, calls: seq<Call>)
    requires options.maxRuns > 0
  {
    && Ranked(coarse, order) && order != [] && |calls| == |order|
    && (forall i: nat :: i in order <==> Chosen(options, coarse, i))
    && var bundle := Bundle(options, coarse[order[0]].ms);
       (forall k | 0 <= k < |order| ::
          calls[k] == Call(order[k], 0, bundle,
                           BenchmarkRuns(options.preciseMs, coarse[order[k]].ms, bundle, options.maxRuns)))
  }

  /** A precise call makes as many runs as the cap and the budget allow, but at least one, all of the
      same bundle and without warmup. */
  lemma PreciseRunsFit(options: Options, coarse: seq<Time>, order: seq<nat>, calls: seq<Call>, k: nat, each: real)
    requires options.maxRuns > 0 && TimedInRankOrder(options, coarse, order, calls) && k < |calls|
    requires order[k] < |coarse| && coarse[order[k]].Finite?
    requires var ms := coarse[order[k]].ms;
             each == (if ms < 0.001 then 0.001 else ms) * (if calls[k].bundle == 0 then 1.0 else calls[k].bundle as real)
    ensures calls[k] == Call(order[k], 0, calls[0].bundle, calls[k].runs) && 1 <= calls[k].runs <= options.maxRuns
    ensures calls[k].runs > 1 ==> calls[k].runs as real * each <= options.preciseMs as real
    ensures calls[k].runs < options.maxRuns ==> (calls[k].runs + 1) as real * each > options.preciseMs as real
  {
    hide RunMs, BenchmarkRuns, Bundle, Chosen;
    RunsFitBudget(options.preciseMs, coarse[order[k]].ms, calls[k].bundle, options.maxRuns, each);
  }

  /** The least precise time among the chosen, ties to the better rank; the head of the ranking
      when no precise time is finite. */
  ghost predicate Wins(options: Options, coarse: seq<Time>, precise: seq<Time>, w: nat, ms: real)
    requires |precise| == |coarse|
  {
    && Chosen(options, coarse, w)
    && if exists i: nat :: Chosen(options, coarse, i) && precise[i].Finite? then
         && precise[w] == Finite(ms)
         && forall i: nat | Chosen(options, coarse, i) && precise[i].Finite? && i != w ::
              ms < precise[i].ms || (ms == precise[i].ms && Before(coarse, w, i))
       else
         Ahead(coarse, w) == {} && coarse[w] == Finite(ms)
  }

  lemma CutoffBound(options: Options, bestMs: real, ms: real)
    ensures ms <= Cutoff(options, bestMs)
       <==> ms <= options.coarseCutoffFactor as real * bestMs || ms <= options.coarseCutoffFactor as real * 0.001
  {
    var factor := options.coarseCutoffFactor as real;
    if bestMs < 0.001 {
      assert Cutoff(options, bestMs) == factor * 0.001;
      ProductGrows(factor, bestMs, 0.001);
    } else {
      assert Cutoff(options, bestMs) == factor * bestMs;
      ProductGrows(factor, 0.001, bestMs);
    }
  }

  /** In a complete ranked list, being chosen is a matter of position and of distance from the
      head. */
  lemma ChosenByPosition(options: Options, coarse: seq<Time>, s: seq<nat>, k: nat)
    requires Ranked(coarse, s) && k < |s|
    requires forall i: nat | i < |coarse| && coarse[i].Finite? :: i in s
    ensures Chosen(options, coarse, s[k]) <==>
              && (options.topK > 0 ==> k < options.topK)
              && (options.topK > 0 && options.coarseCutoffFactor > 0 ==>
                    coarse[s[k]].ms <= Cutoff(options, coarse[s[0]].ms))
  {
    hide Before, Cutoff;
    PositionIsRank(coarse, s, k);
    PositionIsRank(coarse, s, 0);
    forall b: nat | b < |coarse| && coarse[b].Finite? && Ahead(coarse, b) == {} ensures b == s[0] {
      var j :| 0 <= j < |s| && s[j] == b;
      PositionIsRank(coarse, s, j);
    }
  }

  lemma HeadIsAlone(coarse: seq<Time>, best: nat)
    requires best < |coarse| && coarse[best].Finite?
    requires forall j: nat | j < |coarse| && coarse[j].Finite? && j != best ::
               coarse[best].ms < coarse[j].ms || (coarse[best].ms == coarse[j].ms && best < j)
    ensures forall b: nat | b < |coarse| && coarse[b].Finite? :: Ahead(coarse, b) == {} <==> b == best
  {
    assert Ahead(coarse, best) == {};
    forall b: nat | b < |coarse| && coarse[b].Finite? && b != best ensures Ahead(coarse, b) != {} {
      assert best in Ahead(coarse, b);
    }
  }

  lemma ChosenGivenHead(options: Options, coarse: seq<Time>, i: nat, best: nat)
    requires options.topK > 0 && options.coarseCutoffFactor > 0
    requires i < |coarse| && coarse[i].Finite? && best < |coarse| && coarse[best].Finite?
    requires forall j: nat | j < |coarse| && coarse[j].Finite? && j != best ::
               coarse[best].ms < coarse[j].ms || (coarse[best].ms == coarse[j].ms && best < j)
    ensures Chosen(options, coarse, i) <==>
              |Ahead(coarse, i)| < options.topK && coarse[i].ms <= Cutoff(options, coarse[best].ms)
  {
    HeadIsAlone(coarse, best);
    hide Ahead, Before, Cutoff;
  }

  /** With a cutoff, a candidate of good enough rank is chosen exactly when it is not slower than `factor`
      times the best one, or than `factor` microseconds. */
  lemma ChosenWithinFactor(options: Options, coarse: seq<Time>, i: nat, best: nat)
    requires options.topK > 0 && options.coarseCutoffFactor > 0
    requires i < |coarse| && coarse[i].Finite? && best < |coarse| && coarse[best].Finite?
    requires forall j: nat | j < |coarse| && coarse[j].Finite? && j != best ::
               coarse[best].ms < coarse[j].ms || (coarse[best].ms == coarse[j].ms && best < j)
    ensures Chosen(options, coarse, i) <==>
              && |Ahead(coarse, i)| < options.topK
              && (coarse[i].ms <= options.coarseCutoffFactor as real * coarse[best].ms
                  || coarse[i].ms <= options.coarseCutoffFactor as real * 0.001)
  {
    hide Cutoff, Chosen, Ahead, Before;
    ChosenGivenHead(options, coarse, i, best);
    CutoffBound(options, coarse[best].ms, coarse[i].ms);
  }

  /** How many entries of a ranked list `std::upper_bound` keeps below the cutoff. */
  method KeptBelow(coarse: seq<Time>, s: seq<nat>, cutoff: real) returns (keep: nat)
    requires Ranked(coarse, s)
    ensures keep <= |s|
    ensures forall k | 0 <= k < |s| :: k < keep <==> coarse[s[k]].ms <= cutoff
  {
    keep := 0;
    while keep < |s| && coarse[s[keep]].ms <= cutoff
      invariant keep <= |s|
      invariant forall k | 0 <= k < keep :: coarse[s[k]].ms <= cutoff
    {
      keep := keep + 1;
    }
    if keep < |s| {
      forall k | keep < k < |s| ensures coarse[s[k]].ms > cutoff {
        assert Before(coarse, s[keep], s[k]);
      }
    }
  }

  method FiniteIndices(coarse: seq<Time>) returns (finite: seq<nat>)
    ensures AllFinite(coarse, finite)
    ensures forall i: nat | i < |coarse| && coarse[i].Finite? :: i in finite
    ensures forall j, k | 0 <= j < k < |finite| :: finite[j] != finite[k]
  {
    finite := [];
    var index := 0;
    while index < |coarse|
      invariant index <= |coarse| && AllFinite(coarse, finite)
      invariant forall i: nat | i < index && coarse[i].Finite? :: i in finite
      invariant forall k | 0 <= k < |finite| :: finite[k] < index
      invariant forall j, k | 0 <= j < k < |finite| :: finite[j] != finite[k]
    {
      if coarse[index].Finite? { finite := finite + [index]; }
      index := index + 1;
    }
  }

  lemma NothingToChoose(options: Options, coarse: seq<Time>)
    requires NoneFinite(coarse)
    ensures forall i: nat :: !Chosen(options, coarse, i)
  {
  }

  lemma ChosenIsPrefix(options: Options, coarse: seq<Time>, s: seq<nat>, keep: nat)
    requires Ranked(coarse, s) && s != [] && keep <= |s|
    requires forall i: nat | i < |coarse| && coarse[i].Finite? :: i in s
    requires forall k | 0 <= k < |s| ::
               k < keep <==>
                 && (options.topK > 0 ==> k < options.topK)
                 && (options.topK > 0 && options.coarseCutoffFactor > 0 ==>
                       coarse[s[k]].ms <= Cutoff(options, coarse[s[0]].ms))
    ensures keep > 0 && Ahead(coarse, s[0]) == {}
    ensures forall i: nat :: i in s[..keep] <==> Chosen(options, coarse, i)
  {
    hide Before, Ahead, Cutoff;
    PositionIsRank(coarse, s, 0);
    var head := s[0];
    assert options.coarseCutoffFactor > 0 ==> coarse[head].ms <= Cutoff(options, coarse[head].ms);
    forall i: nat | Chosen(options, coarse, i) ensures i in s {}
    hide Chosen;
    forall k | 0 <= k < |s| ensures k < keep <==> Chosen(options, coarse, s[k]) {
      ChosenByPosition(options, coarse, s, k);
    }
    forall i: nat ensures i in s[..keep] <==> Chosen(options, coarse, i) {
      if Chosen(options, coarse, i) {
        var k :| 0 <= k < |s| && s[k] == i;
        assert k < keep;
        assert s[..keep][k] == i;
      }
    }
  }

  /** The candidates the precise pass will time, best coarse time first. */
  method Shortlist(options: Options, coarse: seq<Time>) returns (selected: seq<nat>)
    ensures Ranked(coarse, selected)
    ensures forall i: nat :: i in selected <==> Chosen(options, coarse, i)
    ensures selected == [] <==> NoneFinite(coarse)
    ensures selected != [] ==> Ahead(coarse, selected[0]) == {}
  {
    hide Before, Ahead, Chosen, Cutoff, SortByCoarse, MaxReal;
    var finite := FiniteIndices(coarse);
    var sorted := SortByCoarse(coarse, finite);
    assert forall k | 0 <= k < |finite| :: finite[k] in sorted;
    if sorted == [] {
      assert forall i: nat :: !Chosen(options, coarse, i) by { NothingToChoose(options, coarse); }
      return [];
    }
    var keep := |sorted|;
    if options.topK > 0 && keep > options.topK { keep := options.topK; }
    ghost var top := keep;
    if options.topK > 0 && options.coarseCutoffFactor > 0 {
      keep := KeptBelow(coarse, sorted[..keep], Cutoff(options, coarse[sorted[0]].ms));
      assert forall k | 0 <= k < top :: sorted[k] == sorted[..top][k];
    }
    selected := sorted[..keep];
    ChosenIsPrefix(options, coarse, sorted, keep);
  }

  /** Marks the precise pass: everything the timer answered so far, and the best of it. */
  ghost predicate BestSoFar(coarse: seq<Time>, precise: seq<Time>, order: seq<nat>, fastest: Option<nat>) {
    && Ranked(coarse, order) && |precise| == |coarse|
    && match fastest
       case None => forall k | 0 <= k < |order| :: precise[order[k]].Infinite?
       case Some(w) =>
         && w in order && w < |precise| && precise[w].Finite?
         && forall k | 0 <= k < |order| && precise[order[k]].Finite? && order[k] != w ::
              precise[w].ms < precise[order[k]].ms
              || (precise[w].ms == precise[order[k]].ms && Before(coarse, w, order[k]))
  }

  function Faster(precise: seq<Time>, fastest: Option<nat>, i: nat, time: Time): Option<nat>
    requires fastest.Some? ==> fastest.value < |precise| && precise[fastest.value].Finite?
  {
    if time.Finite? && (fastest.None? || time.ms < precise[fastest.value].ms) then Some(i) else fastest
  }

  lemma BeforeIsStrict(coarse: seq<Time>, i: nat, j: nat)
    requires Candidate(coarse, i) && Candidate(coarse, j) && Before(coarse, i, j)
    ensures i != j
  {
  }

  /** One more measurement keeps the best, because earlier ranks win ties. */
  lemma BestSoFarStep(coarse: seq<Time>, precise: seq<Time>, order: seq<nat>, fastest: Option<nat>, i: nat, time: Time)
    requires BestSoFar(coarse, precise, order, fastest) && Ranked(coarse, order + [i])
    ensures i < |precise| && BestSoFar(coarse, precise[i := time], order + [i], Faster(precise, fastest, i, time))
  {
    hide Before;
    var all := order + [i];
    forall k | 0 <= k < |order| ensures order[k] != i && Before(coarse, order[k], i) {
      assert all[k] == order[k] && all[|order|] == i;
      BeforeIsStrict(coarse, order[k], i);
    }
    var next := Faster(precise, fastest, i, time);
    if next.Some? { assert all[|order|] == i && next.value in all; }
  }

  /** The first `k` shortlisted candidates have been timed, after `base` earlier calls. */
  ghost predicate TimedSoFar(options: Options, coarse: seq<Time>, order: seq<nat>, timer: Timer, precise: seq<Time>,
                             base: nat, calls: seq<Call>, bundle: nat, k: nat)
  {
    && k == |calls| <= |order| && |precise| == |coarse| && AllFinite(coarse, order)
    && (forall j | 0 <= j < k ::
          && calls[j] == Call(order[j], 0, bundle,
                              BenchmarkRuns(options.preciseMs, coarse[order[j]].ms, bundle, options.maxRuns))
          && precise[order[j]] == TimeOrInvalid(timer(base + j, calls[j])))
    && forall i | 0 <= i < |precise| && i !in order[..k] :: precise[i] == Infinite
  }

  method TimeCoarsely(n: nat, options: Options, timer: Timer) returns (coarse: seq<Time>, calls: seq<Call>)
    ensures Pass(coarse, calls) == CoarsePass(n, options, timer)
  {
    coarse, calls := [], [];
    var index := 0;
    while index < n
      invariant index <= n && Pass(coarse, calls) == CoarsePass(index, options, timer)
    {
      var time := TimeOrInvalid(timer(|calls|, Call(index, 1, 1, 1)));
      ghost var before := calls;
      calls := calls + [Call(index, 1, 1, 1)];
      if time.Finite? {
        var runs := CoarseRuns(options, time.ms);
        if runs != 1 {
          time := TimeOrInvalid(timer(|calls|, Call(index, 0, 1, runs)));
          calls := calls + [Call(index, 0, 1, runs)];
          assert calls == before + [Call(index, 1, 1, 1), Call(index, 0, 1, runs)];
        }
      }
      coarse := coarse + [time];
      index := index + 1;
    }
  }

  lemma TimedSoFarStep(options: Options, coarse: seq<Time>, order: seq<nat>, timer: Timer, precise: seq<Time>,
                       base: nat, calls: seq<Call>, bundle: nat, k: nat, time: Time, call: Call)
    requires TimedSoFar(options, coarse, order, timer, precise, base, calls, bundle, k) && k < |order|
    requires Ranked(coarse, order)
    requires call == Call(order[k], 0, bundle,
                          BenchmarkRuns(options.preciseMs, coarse[order[k]].ms, bundle, options.maxRuns))
    requires time == TimeOrInvalid(timer(base + k, call))
    ensures order[k] < |precise|
    ensures TimedSoFar(options, coarse, order, timer, precise[order[k] := time], base, calls + [call], bundle, k + 1)
  {
    hide BenchmarkRuns, TimeOrInvalid, Before;
    forall j | 0 <= j < k ensures order[j] != order[k] {
      assert Before(coarse, order[j], order[k]);
      BeforeIsStrict(coarse, order[j], order[k]);
    }
    assert order[..k + 1] == order[..k] + [order[k]];
  }

  /** Times the shortlisted candidates in order; `base` calls were made before. */
  method TimePrecisely(options: Options, coarse: seq<Time>, order: seq<nat>, bundle: nat, timer: Timer, base: nat)
    returns (precise: seq<Time>, calls: seq<Call>, fastest: Option<nat>)
    requires Ranked(coarse, order)
    ensures TimedSoFar(options, coarse, order, timer, precise, base, calls, bundle, |order|)
    ensures BestSoFar(coarse, precise, order, fastest)
  {
    hide Before, BenchmarkRuns, TimeOrInvalid;
    precise, calls, fastest := seq(|coarse|, _ => Infinite), [], None;
    var k := 0;
    while k < |order|
      invariant TimedSoFar(options, coarse, order, timer, precise, base, calls, bundle, k)
      invariant BestSoFar(coarse, precise, order[..k], fastest)
    {
      var index := order[k];
      var call := Call(index, 0, bundle, BenchmarkRuns(options.preciseMs, coarse[index].ms, bundle, options.maxRuns));
      var time := TimeOrInvalid(timer(base + k, call));
      TimedSoFarStep(options, coarse, order, timer, precise, base, calls, bundle, k, time, call);
      assert order[..k] + [index] == order[..k + 1];
      BestSoFarStep(coarse, precise, order[..k], fastest, index, time);
      fastest := Faster(precise, fastest, index, time);
      precise, calls := precise[index := time], calls + [call];
      k := k + 1;
    }
    assert order[..k] == order;
  }

  ghost predicate AnswersOf(timer: Timer, order: seq<nat>, calls: seq<Call>, base: nat, precise: seq<Time>)
    requires |calls| == |order|
  {
    && (forall k | 0 <= k < |order| ::
          order[k] < |precise| && precise[order[k]] == TimeOrInvalid(timer(base + k, calls[k])))
    && forall i | 0 <= i < |precise| && i !in order :: precise[i] == Infinite
  }

  /** What a selection that found a candidate has done: the coarse pass, then one precise call for
      each chosen candidate in rank order, and the winner is the best of those. */
  ghost predicate Selected(n: nat, options: Options, timer: Timer, r: Selection, calls: seq<Call>, order: seq<nat>)
    requires options.maxRuns > 0
  {
    var coarse, before := CoarsePass(n, options, timer).times, CoarsePass(n, options, timer).calls;
    && r.coarse == coarse && |r.precise| == n && before <= calls
    && TimedInRankOrder(options, coarse, order, calls[|before|..])
    && AnswersOf(timer, order, calls[|before|..], |before|, r.precise)
    && Wins(options, coarse, r.precise, r.winner, r.winnerMs)
  }

  lemma SelectionIsRight(options: Options, coarse: seq<Time>, order: seq<nat>, timer: Timer, precise: seq<Time>,
                         base: nat, calls: seq<Call>, fastest: Option<nat>)
    requires options.maxRuns > 0 && Ranked(coarse, order) && order != [] && Ahead(coarse, order[0]) == {}
    requires forall i: nat :: i in order <==> Chosen(options, coarse, i)
    requires TimedSoFar(options, coarse, order, timer, precise, base, calls,
                        Bundle(options, coarse[order[0]].ms), |order|)
    requires BestSoFar(coarse, precise, order, fastest)
    ensures |precise| == |coarse| && TimedInRankOrder(options, coarse, order, calls)
    ensures AnswersOf(timer, order, calls, base, precise)
    ensures fastest.Some? ==> && fastest.value < |precise| && precise[fastest.value].Finite?
                              && Wins(options, coarse, precise, fastest.value, precise[fastest.value].ms)
    ensures fastest.None? ==> Wins(options, coarse, precise, order[0], coarse[order[0]].ms)
  {
    hide BenchmarkRuns, TimeOrInvalid, Before, Bundle, Cutoff;
    assert order[..|order|] == order;
    forall i: nat | Chosen(options, coarse, i) ensures exists k :: 0 <= k < |order| && order[k] == i {}
    assert order[0] in order;
  }

  method SelectByAdaptiveBenchmark(n: nat, options: Options, timer: Timer)
    returns (result: Option<Selection>, calls: seq<Call>, ghost order: seq<nat>)
    ensures Trivial(n, options) ==> result.None? && calls == []
    ensures !Trivial(n, options) && NoneFinite(CoarsePass(n, options, timer).times) ==>
              result.None? && calls == CoarsePass(n, options, timer).calls
    ensures !Trivial(n, options) && !NoneFinite(CoarsePass(n, options, timer).times) ==>
              result.Some? && Selected(n, options, timer, result.value, calls, order)
  {
    hide BestSoFar, Wins, TimedSoFar, TimedInRankOrder, CoarsePass;
    order := [];
    if n == 0 || options.maxRuns == 0 || options.coarseMaxRuns == 0 { return None, [], []; }
    var coarse, before := TimeCoarsely(n, options, timer);
    var selected := Shortlist(options, coarse);
    if selected == [] { return None, before, []; }
    order := selected;
    var bundle := Bundle(options, coarse[selected[0]].ms);
    var precise, after, fastest := TimePrecisely(options, coarse, selected, bundle, timer, |before|);
    calls := before + after;
    assert calls[|before|..] == after;
    SelectionIsRight(options, coarse, selected, timer, precise, |before|, after, fastest);
    var winner := if fastest.Some? then fastest.value else selected[0];
    result := Some(Selection(winner, if fastest.Some? then precise[winner].ms else coarse[winner].ms, coarse, precise));
  }

  function Answers(timer: Timer, calls: seq<Call>): seq<Time> {
    seq(|calls|, i requires 0 <= i < |calls| => TimeOrInvalid(timer(i, calls[i])))
  }

  /** Times every candidate once; the winner has the least time, the lowest index among equals. */
  method SelectBySimpleBenchmark(n: nat, warmup: nat, bundle: nat, runs: nat, timer: Timer)
    returns (result: Option<Selection>, calls: seq<Call>)
    ensures n == 0 || bundle == 0 || runs == 0 ==> result.None? && calls == []
    ensures n > 0 && bundle > 0 && runs > 0 ==>
              && calls == seq(n, i requires i >= 0 => Call(i, warmup, bundle, runs))
              && var times := Answers(timer, calls);
                 (if NoneFinite(times) then result.None?
                  else
                    && result.Some? && result.value.precise == times && result.value.coarse == []
                    && result.value.winner < n && times[result.value.winner] == Finite(result.value.winnerMs)
                    && forall i | 0 <= i < n && times[i].Finite? ::
                         result.value.winnerMs < times[i].ms
                         || (result.value.winnerMs == times[i].ms && result.value.winner <= i))
  {
    result, calls := None, [];
    if n == 0 || bundle == 0 || runs == 0 { return; }
    var times: seq<Time>, fastest: Option<nat>, index := [], None, 0;
    while index < n
      invariant index <= n && |times| == index == |calls|
      invariant forall i | 0 <= i < index ::
                  calls[i] == Call(i, warmup, bundle, runs) && times[i] == TimeOrInvalid(timer(i, calls[i]))
      invariant fastest.None? ==> NoneFinite(times)
      invariant fastest.Some? ==>
                  && fastest.value < index && times[fastest.value].Finite?
                  && forall i | 0 <= i < index && times[i].Finite? ::
                       times[fastest.value].ms < times[i].ms
                       || (times[fastest.value].ms == times[i].ms && fastest.value <= i)
    {
      var call := Call(index, warmup, bundle, runs);
      var time := TimeOrInvalid(timer(index, call));
      fastest := Faster(times, fastest, index, time);
      calls, times := calls + [call], times + [time];
      index := index + 1;
    }
    assert times == Answers(timer, calls);
    if fastest.Some? {
      result := Some(Selection(fastest.value, times[fastest.value].ms, [], times));
    }
  }
}

/** The compile-time tuning queue: kernels are queued one by one, one pass compiles and
    benchmarks a search per problem, a second one compiles the winners for repeated problems. */
module Autotune {
  import opened AdaptiveBenchmark
  import opened Wrappers

  datatype CompiledKernel = CompiledKernel(binary: seq<bv8>, gridSize: int, blockSize: int)

  /** A successful backend compile always yields a non-empty binary. */
  type Compiled = k: CompiledKernel | k.binary != [] witness CompiledKernel([0], 0, 0)

  /** The parts of rocMLIR and HIP the queue calls, as arbitrary oracles. Answers that may vary
      from call to call take the number of the call. */
  datatype Backend = Backend(
    problemKey: string -> Option<string>,            // cache key of a module, when it has a problem string
    space: string -> seq<string>,                    // perfConfigs of a module's search space
    parses: string -> bool,                          // whether a printed module can be read back
    compile: (nat, string, string) -> Option<Compiled>,
    buffersReady: nat -> bool,
    time: (nat, nat, Call) -> Measured)

  datatype Benchmark = Simple(warmup: nat, runs: nat) | Adaptive

  const ADAPTIVE_DEFAULTS := Options(10, 20, 5, 4, 20, 4, 4)

  datatype Candidate = Candidate(config: string, kernel: Option<Compiled>)
  datatype DeferredSearch = DeferredSearch(name: string, text: string, key: Option<string>, configs: seq<string>)
  datatype DeferredCacheHit = DeferredCacheHit(name: string, text: string, key: string, config: string)
  datatype PendingWinnerCompile = PendingWinnerCompile(name: string, text: string, key: string)

  datatype Outcome = Done | EmptySpace | Unparsed | NotRunnable | NoWinner

  ghost predicate Built(backend: Backend, kernel: CompiledKernel, text: string, config: string) {
    exists t: nat :: backend.compile(t, text, config) == Some(kernel)
  }

  /** The candidates of one module when the pool's calls on them are numbered from `start`. */
  function Candidates(backend: Backend, text: string, configs: seq<string>, start: nat): seq<Candidate> {
    seq(|configs|, i requires 0 <= i < |configs| => Candidate(configs[i], backend.compile(start + i, text, configs[i])))
  }

  /** The timer of one benchmark: candidates that did not compile cannot be timed. */
  function CandidateTimer(backend: Backend, candidates: seq<Candidate>, now: nat): Timer {
    (number: nat, call: Call) =>
      if call.index < |candidates| && candidates[call.index].kernel.Some? then backend.time(now, number, call) else NoTime
  }

  /** Whether `best` is what the benchmark's rules make of the candidates. */
  ghost predicate BestOf(backend: Backend, benchmark: Benchmark, candidates: seq<Candidate>, now: nat, best: Option<nat>) {
    var n, timer := |candidates|, CandidateTimer(backend, candidates, now);
    if n == 1 && candidates[0].kernel.Some? then best == Some(0)
    else if !backend.buffersReady(now) then best.None?
    else
      match benchmark
      case Simple(warmup, runs) =>
        var times := Answers(timer, seq(n, i requires i >= 0 => Call(i, warmup, 1, runs)));
        if runs == 0 || NoneFinite(times) then best.None?
        else
          && best.Some? && best.value < n && times[best.value].Finite?
          && forall i | 0 <= i < n && times[i].Finite? ::
               times[best.value].ms < times[i].ms || (times[best.value].ms == times[i].ms && best.value <= i)
      case Adaptive =>
        if NoneFinite(CoarsePass(n, ADAPTIVE_DEFAULTS, timer).times) then best.None?
        else
          best.Some? && exists r, calls, order ::
            Selected(n, ADAPTIVE_DEFAULTS, timer, r, calls, order) && r.winner == best.value
  }

  /** The rules either name somebody or nobody. */
  lemma NobodyOrOne(backend: Backend, benchmark: Benchmark, candidates: seq<Candidate>, now: nat, best: nat)
    requires BestOf(backend, benchmark, candidates, now, Some(best))
    ensures !BestOf(backend, benchmark, candidates, now, None)
  {
  }

  /** Somebody wins when the buffers are there and some candidate that compiled answers usably. */
  lemma SomebodyWins(backend: Backend, benchmark: Benchmark, candidates: seq<Candidate>, now: nat, i: nat)
    requires backend.buffersReady(now) && i < |candidates| && candidates[i].kernel.Some?
    requires benchmark.Simple? ==> benchmark.runs > 0
    requires forall k: nat, call: Call | call.index == i ::
               backend.time(now, k, call).Ms? && backend.time(now, k, call).ms >= 0.0
    ensures !BestOf(backend, benchmark, candidates, now, None)
  {
    var n, timer := |candidates|, CandidateTimer(backend, candidates, now);
    match benchmark
    case Simple(warmup, runs) =>
      var times := Answers(timer, seq(n, j requires j >= 0 => Call(j, warmup, 1, runs)));
      assert times[i] == TimeOrInvalid(timer(i, Call(i, warmup, 1, runs)));
      assert !NoneFinite(times);
    case Adaptive =>
      var k := LastCallDecides(n, ADAPTIVE_DEFAULTS, timer, i);
      assert CoarsePass(n, ADAPTIVE_DEFAULTS, timer).times[i].Finite?;
  }

  /** In some compile and benchmark of the module's whole search space, the rules name nobody. */
  ghost predicate NobodyWins(backend: Backend, benchmark: Benchmark, text: string) {
    exists start: nat, now: nat ::
      start + |backend.space(text)| <= now
      && BestOf(backend, benchmark, Candidates(backend, text, backend.space(text), start), now, None)
  }

  lemma NobodyWon(backend: Backend, benchmark: Benchmark, text: string, start: nat, now: nat)
    requires start + |Candidates(backend, text, backend.space(text), start)| <= now
    requires BestOf(backend, benchmark, Candidates(backend, text, backend.space(text), start), now, None)
    ensures NobodyWins(backend, benchmark, text)
  {
    hide BestOf;
  }

  /** What makes tuning this module end this way. */
  ghost predicate FailsWith(backend: Backend, benchmark: Benchmark, text: string, outcome: Outcome) {
    match outcome
    case Unparsed => !backend.parses(text)
    case EmptySpace => backend.space(text) == []
    case NotRunnable => NobodyWins(backend, benchmark, text)
    case _ => false
  }

  /** A benchmark that took place: the module's whole search space, compiled from call `start` on and
      benchmarked at call `now`, was won by `config`. */
  datatype Contest = Contest(text: string, start: nat, now: nat, config: string)

  /** Every perfConfig of the space took part, with what its compile gave, and the rules named the
      winner. */
  ghost predicate Fair(backend: Backend, benchmark: Benchmark, c: Contest) {
    var candidates := Candidates(backend, c.text, backend.space(c.text), c.start);
    c.start + |candidates| <= c.now
    && exists best: nat ::
         best < |candidates| && candidates[best].config == c.config && candidates[best].kernel.Some?
         && BestOf(backend, benchmark, candidates, c.now, Some(best))
  }

  lemma FairWinner(backend: Backend, benchmark: Benchmark, c: Contest, candidates: seq<Candidate>, best: nat)
    requires candidates == Candidates(backend, c.text, backend.space(c.text), c.start)
    requires best < |candidates| && c.start + |candidates| <= c.now && candidates[best].config == c.config
    requires candidates[best].kernel.Some? && BestOf(backend, benchmark, candidates, c.now, Some(best))
    ensures Fair(backend, benchmark, c) && Built(backend, candidates[best].kernel.value, c.text, c.config)
  {
    hide BestOf;
    assert backend.compile(c.start + best, c.text, c.config) == candidates[best].kernel;
  }

  /** The contests so far were fair, and each was held at a call of its own. */
  ghost predicate ContestsOk(backend: Backend, benchmark: Benchmark, contests: set<Contest>, clock: nat) {
    && (forall c | c in contests :: Fair(backend, benchmark, c) && c.now < clock)
    && forall c, d | c in contests && d in contests :: c.now == d.now ==> c == d
  }

  lemma ContestsStay(backend: Backend, benchmark: Benchmark, contests: set<Contest>, clock: nat, later: nat)
    requires ContestsOk(backend, benchmark, contests, clock) && clock <= later
    ensures ContestsOk(backend, benchmark, contests, later)
  {
  }

  lemma NewContest(backend: Backend, benchmark: Benchmark, contests: set<Contest>, c: Contest, clock: nat)
    requires ContestsOk(backend, benchmark, contests, clock) && Fair(backend, benchmark, c) && c.now == clock
    ensures c !in contests && ContestsOk(backend, benchmark, contests + {c}, clock + 1)
    ensures |contests + {c}| == |contests| + 1
  {
    hide Fair;
  }

  ghost predicate Won(contests: set<Contest>, text: string, config: string) {
    exists c :: c in contests && c.text == text && c.config == config
  }

  /** Cached perfConfigs won a benchmark of some kernel with their problem. */
  ghost predicate CacheOk(backend: Backend, contests: set<Contest>, cache: map<string, string>) {
    forall k | k in cache :: exists text :: backend.problemKey(text) == Some(k) && Won(contests, text, cache[k])
  }

  lemma HeldMeansWon(contests: set<Contest>, c: Contest)
    requires c in contests
    ensures Won(contests, c.text, c.config)
  {
  }

  lemma WonStill(contests: set<Contest>, more: set<Contest>, text: string, config: string)
    requires contests <= more
    ensures Won(contests, text, config) ==> Won(more, text, config)
  {
  }

  /** The cache afterwards: as before, but for this key's winner. */
  ghost predicate Remembers(before: map<string, string>, after: map<string, string>, key: Option<string>, config: string) {
    if key.None? then after == before else after == before[key.value := config]
  }

  lemma CacheOkStep(backend: Backend, contests: set<Contest>, cache: map<string, string>, text: string, config: string,
                    more: set<Contest>, after: map<string, string>)
    requires CacheOk(backend, contests, cache) && Won(more, text, config) && contests <= more
    requires Remembers(cache, after, backend.problemKey(text), config)
    ensures CacheOk(backend, more, after)
  {
    hide Won;
    forall k | k in after ensures exists t :: backend.problemKey(t) == Some(k) && Won(more, t, after[k]) {
      if k in cache && cache[k] == after[k] {
        var t :| backend.problemKey(t) == Some(k) && Won(contests, t, cache[k]);
        WonStill(contests, more, t, cache[k]);
      }
    }
  }

  lemma CacheOkGrows(backend: Backend, contests: set<Contest>, cache: map<string, string>, more: set<Contest>)
    requires CacheOk(backend, contests, cache) && contests <= more
    ensures CacheOk(backend, more, cache)
  {
    hide Won;
    forall k | k in cache ensures exists t :: backend.problemKey(t) == Some(k) && Won(more, t, cache[k]) {
      var t :| backend.problemKey(t) == Some(k) && Won(contests, t, cache[k]);
      WonStill(contests, more, t, cache[k]);
    }
  }

  lemma CacheOkErase(backend: Backend, contests: set<Contest>, cache: map<string, string>, k: string)
    requires CacheOk(backend, contests, cache)
    ensures CacheOk(backend, contests, cache - {k})
  {
    hide Won;
  }

  /** A compile of the module with this perfConfig failed. */
  ghost predicate Failed(backend: Backend, text: string, config: string) {
    exists t: nat :: backend.compile(t, text, config) == None
  }

  lemma CompileTells(backend: Backend, t: nat, text: string, config: string)
    ensures var kernel := backend.compile(t, text, config);
            if kernel.Some? then Built(backend, kernel.value, text, config) else Failed(backend, text, config)
  {
  }

  /** A candidate that never compiled never gets a time, so it cannot be selected. */
  lemma WinnerWasTimed(n: nat, timer: Timer, r: Selection, calls: seq<Call>, order: seq<nat>)
    returns (k: nat, call: Call)
    requires Selected(n, ADAPTIVE_DEFAULTS, timer, r, calls, order)
    ensures r.winner < n && call.index == r.winner && timer(k, call).Ms?
  {
    k := LastCallDecides(n, ADAPTIVE_DEFAULTS, timer, r.winner);
    call := CoarsePass(n, ADAPTIVE_DEFAULTS, timer).calls[k];
  }

  ghost function SearchNames(s: seq<DeferredSearch>): set<string> {
    set i | 0 <= i < |s| :: s[i].name
  }

  ghost function KeysInFlight(s: seq<DeferredSearch>): set<string> {
    set i | 0 <= i < |s| && s[i].key.Some? :: s[i].key.value
  }

  ghost function HitNames(s: seq<DeferredCacheHit>): set<string> {
    set i | 0 <= i < |s| :: s[i].name
  }

  ghost function PendingNames(s: seq<PendingWinnerCompile>): set<string> {
    set i | 0 <= i < |s| :: s[i].name
  }

  ghost predicate DistinctKeys(s: seq<DeferredSearch>) {
    forall i, j | 0 <= i < j < |s| :: s[i].key.Some? ==> s[i].key != s[j].key
  }

  ghost function SearchKeys(s: seq<DeferredSearch>): multiset<Option<string>> {
    if s == [] then multiset{} else SearchKeys(s[..|s| - 1]) + multiset{s[|s| - 1].key}
  }

  /** Picks and refusals have grown by the same since `p0` and `r0`. */
  ghost predicate Balanced(p0: multiset<Option<string>>, r0: multiset<Option<string>>, p: multiset<Option<string>>,
                           r: multiset<Option<string>>)
  {
    p + r0 == p0 + r
  }

  lemma BalanceStart(p: multiset<Option<string>>, r: multiset<Option<string>>)
    ensures Balanced(p, r, p, r)
  {
  }

  lemma BalanceAdds(p0: multiset<Option<string>>, r0: multiset<Option<string>>, p1: multiset<Option<string>>,
                    r1: multiset<Option<string>>, p2: multiset<Option<string>>, r2: multiset<Option<string>>)
    requires Balanced(p0, r0, p1, r1) && Balanced(p1, r1, p2, r2)
    ensures Balanced(p0, r0, p2, r2)
  {
    forall k: Option<string> ensures (p2 + r0)[k] == (p0 + r2)[k] {
      assert (p1 + r0)[k] == (p0 + r1)[k] && (p2 + r1)[k] == (p1 + r2)[k];
    }
  }

  lemma PicksBalance(p0: multiset<Option<string>>, r0: multiset<Option<string>>, keys: multiset<Option<string>>,
                     picked: multiset<Option<string>>, p: multiset<Option<string>>, r: multiset<Option<string>>)
    requires picked == p0 + keys && Balanced(picked, r0, p, r)
    ensures forall k: string :: p[Some(k)] + r0[Some(k)] == p0[Some(k)] + r[Some(k)] + keys[Some(k)]
  {
    forall k: string ensures p[Some(k)] + r0[Some(k)] == p0[Some(k)] + r[Some(k)] + keys[Some(k)] {
      assert (p + r0)[Some(k)] == (picked + r)[Some(k)] && picked[Some(k)] == (p0 + keys)[Some(k)];
    }
  }

  /** What the tuner and the caller's kernel table hold at one moment of `Finish`. */
  datatype Books = Books(queued: map<string, string>, refused: set<string>, configOf: map<string, string>,
                         cache: map<string, string>, picks: multiset<Option<string>>, byKernel: map<string, CompiledKernel>)

  /** The cache gained winners for `keys` and kept the ones it had. */
  ghost predicate Grew(before: map<string, string>, after: map<string, string>, keys: set<string>) {
    after.Keys == before.Keys + keys && forall k | k in before :: after[k] == before[k]
  }

  /** A finished kernel: a binary of its own module, compiled with the winner of its problem, or
      with the winner of its own search when it has no problem key or that winner failed for it. */
  ghost predicate FinishedOne(backend: Backend, contests: set<Contest>, text: string, kernel: CompiledKernel, config: string,
                              wasRefused: bool, winners: map<string, string>)
  {
    && Built(backend, kernel, text, config)
    && match backend.problemKey(text)
       case None => Won(contests, text, config)
       case Some(k) =>
         && k in winners
         && if wasRefused then Failed(backend, text, winners[k]) && Won(contests, text, config)
            else winners[k] == config
  }

  ghost predicate Finished(backend: Backend, contests: set<Contest>, queued: map<string, string>, refused: set<string>,
                           configOf: map<string, string>, byKernel: map<string, CompiledKernel>, names: set<string>,
                           winners: map<string, string>)
  {
    forall n | n in names ::
      && n in queued && n in byKernel && n in configOf
      && FinishedOne(backend, contests, queued[n], byKernel[n], configOf[n], n in refused, winners)
  }

  /** The first `i` searches of the queue have been benchmarked. */
  ghost predicate SearchesDone(backend: Backend, contests: set<Contest>, queue: seq<DeferredSearch>, i: nat, start: Books,
                               now: Books)
  {
    && i <= |queue| && now.queued == start.queued && now.refused == start.refused
    && Grew(start.cache, now.cache, KeysInFlight(queue[..i]))
    && now.picks == start.picks + SearchKeys(queue[..i])
    && now.byKernel.Keys <= start.byKernel.Keys + SearchNames(queue[..i])
    && Finished(backend, contests, now.queued, now.refused, now.configOf, now.byKernel, SearchNames(queue[..i]), now.cache)
  }

  lemma EmptyQueue()
    ensures DistinctKeys([]) && SearchKeys([]) == multiset{} && KeysInFlight([]) == {}
    ensures SearchNames([]) == {} && HitNames([]) == {} && PendingNames([]) == {}
  {
  }

  lemma NoSearchesDone(backend: Backend, contests: set<Contest>, queue: seq<DeferredSearch>, start: Books)
    ensures SearchesDone(backend, contests, queue, 0, start, start)
  {
    assert queue[..0] == [];
    EmptyQueue();
  }

  /** The key of a search is not among those of the searches before it. */
  lemma FreshKey(s: seq<DeferredSearch>, i: nat)
    requires i < |s| && DistinctKeys(s)
    ensures s[i].key.Some? ==> s[i].key.value in KeysInFlight(s) && s[i].key.value !in KeysInFlight(s[..i])
  {
  }

  lemma NextKeyIsFresh(backend: Backend, contests: set<Contest>, queue: seq<DeferredSearch>, i: nat, start: Books, now: Books)
    requires SearchesDone(backend, contests, queue, i, start, now)
    requires i < |queue| && DistinctKeys(queue) && KeysInFlight(queue) !! start.cache.Keys
    ensures queue[i].key.Some? ==> queue[i].key.value !in now.cache
  {
    hide Finished, KeysInFlight;
    FreshKey(queue, i);
  }

  lemma SearchNamesAppend(s: seq<DeferredSearch>, x: DeferredSearch)
    ensures SearchNames(s + [x]) == SearchNames(s) + {x.name}
  {
    assert (s + [x])[|s|] == x;
    assert forall i | 0 <= i < |s| :: (s + [x])[i] == s[i];
  }

  lemma KeysInFlightAppend(s: seq<DeferredSearch>, x: DeferredSearch)
    ensures KeysInFlight(s + [x]) == KeysInFlight(s) + if x.key.Some? then {x.key.value} else {}
  {
    assert (s + [x])[|s|] == x;
    assert forall i | 0 <= i < |s| :: (s + [x])[i] == s[i];
  }

  lemma SearchKeysAppend(s: seq<DeferredSearch>, x: DeferredSearch)
    ensures SearchKeys(s + [x]) == SearchKeys(s) + multiset{x.key}
  {
    assert (s + [x])[..|s|] == s;
  }

  lemma PrefixStep(s: seq<DeferredSearch>, i: nat)
    requires i < |s|
    ensures SearchNames(s[..i + 1]) == SearchNames(s[..i]) + {s[i].name}
    ensures KeysInFlight(s[..i + 1]) == KeysInFlight(s[..i]) + if s[i].key.Some? then {s[i].key.value} else {}
    ensures SearchKeys(s[..i + 1]) == SearchKeys(s[..i]) + multiset{s[i].key}
  {
    assert s[..i] + [s[i]] == s[..i + 1];
    SearchNamesAppend(s[..i], s[i]);
    KeysInFlightAppend(s[..i], s[i]);
    SearchKeysAppend(s[..i], s[i]);
  }

  lemma GrewStep(before: map<string, string>, mid: map<string, string>, after: map<string, string>, keys: set<string>,
                 key: Option<string>, config: string)
    requires Grew(before, mid, keys) && Remembers(mid, after, key, config) && (key.Some? ==> key.value !in mid)
    ensures Grew(before, after, keys + if key.Some? then {key.value} else {})
    ensures forall k | k in mid :: k in after && after[k] == mid[k]
    ensures key.Some? ==> key.value in after && after[key.value] == config
  {
  }

  lemma FinishedGrows(backend: Backend, contests: set<Contest>, more: set<Contest>, queued: map<string, string>,
                      refused: set<string>, configOf: map<string, string>, byKernel: map<string, CompiledKernel>,
                      names: set<string>, winners: map<string, string>)
    requires Finished(backend, contests, queued, refused, configOf, byKernel, names, winners) && contests <= more
    ensures Finished(backend, more, queued, refused, configOf, byKernel, names, winners)
  {
    hide Built, Won, Failed;
    forall n | n in names
      ensures FinishedOne(backend, more, queued[n], byKernel[n], configOf[n], n in refused, winners)
    {
      WonStill(contests, more, queued[n], configOf[n]);
    }
  }

  /** One more kernel is done; the others stay done while the winners only grow. */
  lemma FinishedStep(backend: Backend, contests: set<Contest>, queued: map<string, string>, refused: set<string>,
                     configOf: map<string, string>, byKernel: map<string, CompiledKernel>, names: set<string>,
                     winners: map<string, string>, n: string, kernel: CompiledKernel, config: string, more: set<string>,
                     wider: map<string, string>)
    requires Finished(backend, contests, queued, refused, configOf, byKernel, names, winners)
    requires n in queued && FinishedOne(backend, contests, queued[n], kernel, config, n in more, wider)
    requires forall m | m != n :: m in more <==> m in refused
    requires forall k | k in winners :: k in wider && wider[k] == winners[k]
    ensures Finished(backend, contests, queued, more, configOf[n := config], byKernel[n := kernel], names + {n}, wider)
  {
    hide Built, Won, Failed;
  }

  lemma SearchesDoneStep(backend: Backend, contests: set<Contest>, queue: seq<DeferredSearch>, i: nat, start: Books, now: Books,
                         kernel: CompiledKernel, config: string, more: set<Contest>, cache: map<string, string>)
    requires SearchesDone(backend, contests, queue, i, start, now) && contests <= more
    requires i < |queue| && (queue[i].key.Some? ==> queue[i].key.value !in now.cache)
    requires queue[i].name in now.queued && queue[i].text == now.queued[queue[i].name]
    requires queue[i].key == backend.problemKey(queue[i].text)
    requires Built(backend, kernel, queue[i].text, config) && Won(more, queue[i].text, config)
    requires Remembers(now.cache, cache, queue[i].key, config) && now.refused == {}
    ensures SearchesDone(backend, more, queue, i + 1, start,
                         Books(now.queued, now.refused, now.configOf[queue[i].name := config], cache,
                               now.picks + multiset{queue[i].key}, now.byKernel[queue[i].name := kernel]))
  {
    hide Built, Won, Finished, KeysInFlight, SearchNames, SearchKeys, Grew, Remembers;
    PrefixStep(queue, i);
    GrewStep(start.cache, now.cache, cache, KeysInFlight(queue[..i]), queue[i].key, config);
    FinishedGrows(backend, contests, more, now.queued, now.refused, now.configOf, now.byKernel, SearchNames(queue[..i]),
                  now.cache);
    FinishedStep(backend, more, now.queued, now.refused, now.configOf, now.byKernel, SearchNames(queue[..i]), now.cache,
                 queue[i].name, kernel, config, now.refused, cache);
  }

  lemma SearchesDoneMeans(backend: Backend, contests: set<Contest>, queue: seq<DeferredSearch>, i: nat, start: Books, now: Books)
    requires SearchesDone(backend, contests, queue, i, start, now)
    ensures Grew(start.cache, now.cache, KeysInFlight(queue[..i])) && now.picks == start.picks + SearchKeys(queue[..i])
    ensures now.byKernel.Keys <= start.byKernel.Keys + SearchNames(queue[..i])
    ensures Finished(backend, contests, now.queued, now.refused, now.configOf, now.byKernel, SearchNames(queue[..i]), now.cache)
  {
  }

  lemma KeyIsInFlight(s: seq<DeferredSearch>, i: nat)
    requires i < |s|
    ensures s[i].key.Some? ==> s[i].key.value in KeysInFlight(s)
  {
  }

  lemma DistinctAppend(s: seq<DeferredSearch>, x: DeferredSearch)
    requires DistinctKeys(s) && (x.key.Some? ==> x.key.value !in KeysInFlight(s))
    ensures DistinctKeys(s + [x])
  {
    forall i | 0 <= i < |s| ensures x.key.Some? ==> s[i].key != x.key { KeyIsInFlight(s, i); }
  }

  lemma KeyHasSearch(s: seq<DeferredSearch>, count: nat, k: string)
    requires count <= |s| && k in KeysInFlight(s[..count])
    ensures exists i :: 0 <= i < count && s[i].key == Some(k)
  {
  }

  lemma {:induction false} SearchKeyCount(s: seq<DeferredSearch>, k: string)
    requires DistinctKeys(s)
    ensures SearchKeys(s)[Some(k)] == if k in KeysInFlight(s) then 1 else 0
  {
    if s != [] {
      var n := |s| - 1;
      assert s == s[..n + 1];
      PrefixStep(s, n);
      SearchKeyCount(s[..n], k);
      FreshKey(s, n);
    }
  }

  lemma HitNamesAppend(s: seq<DeferredCacheHit>, x: DeferredCacheHit)
    ensures HitNames(s + [x]) == HitNames(s) + {x.name}
  {
    assert (s + [x])[|s|] == x;
    assert forall i | 0 <= i < |s| :: (s + [x])[i] == s[i];
  }

  lemma PendingNamesAppend(s: seq<PendingWinnerCompile>, x: PendingWinnerCompile)
    ensures PendingNames(s + [x]) == PendingNames(s) + {x.name}
  {
    assert (s + [x])[|s|] == x;
    assert forall i | 0 <= i < |s| :: (s + [x])[i] == s[i];
  }

  /** Some queued kernel has problem `k`, whose winner is not known yet. */
  ghost predicate NewProblem(backend: Backend, queued: map<string, string>, cache: map<string, string>, k: string) {
    k !in cache && exists n :: n in queued && backend.problemKey(queued[n]) == Some(k)
  }

  /** Some fair contest of this module was won by `config`. */
  ghost predicate WonFairly(backend: Backend, benchmark: Benchmark, contests: set<Contest>, text: string, config: string) {
    exists c :: c in contests && Fair(backend, benchmark, c) && c.text == text && c.config == config
  }

  lemma WonIsFair(backend: Backend, benchmark: Benchmark, contests: set<Contest>, clock: nat, text: string, config: string)
    requires ContestsOk(backend, benchmark, contests, clock) && Won(contests, text, config)
    ensures WonFairly(backend, benchmark, contests, text, config)
  {
    hide Fair;
  }

  /** Kernels that share a problem share one perfConfig, which won a fair benchmark of that problem's
      whole search space, unless it failed to compile for one of them. */
  lemma SameProblemSameConfig(backend: Backend, benchmark: Benchmark, contests: set<Contest>, clock: nat,
                              queued: map<string, string>, refused: set<string>, configOf: map<string, string>,
                              byKernel: map<string, CompiledKernel>, names: set<string>, winners: map<string, string>,
                              m: string, n: string, k: string)
    requires Finished(backend, contests, queued, refused, configOf, byKernel, names, winners)
    requires ContestsOk(backend, benchmark, contests, clock) && CacheOk(backend, contests, winners)
    requires m in names && n in names && m in queued && n in queued
    requires backend.problemKey(queued[m]) == Some(k) == backend.problemKey(queued[n])
    ensures m in configOf && n in configOf && k in winners
    ensures m !in refused && n !in refused ==> configOf[m] == configOf[n]
    ensures m in refused ==>
              Failed(backend, queued[m], winners[k]) && WonFairly(backend, benchmark, contests, queued[m], configOf[m])
    ensures exists text :: backend.problemKey(text) == Some(k) && WonFairly(backend, benchmark, contests, text, winners[k])
  {
    hide Built, Won, Failed, ContestsOk, WonFairly;
    if m in refused { WonIsFair(backend, benchmark, contests, clock, queued[m], configOf[m]); }
    var text :| backend.problemKey(text) == Some(k) && Won(contests, text, winners[k]);
    WonIsFair(backend, benchmark, contests, clock, text, winners[k]);
  }

  lemma FairWinnerOf(backend: Backend, benchmark: Benchmark, c: Contest) returns (best: nat)
    requires Fair(backend, benchmark, c)
    ensures var candidates := Candidates(backend, c.text, backend.space(c.text), c.start);
            && best < |candidates| && candidates[best].config == c.config && candidates[best].kernel.Some?
            && BestOf(backend, benchmark, candidates, c.now, Some(best))
  {
    hide BestOf;
    var candidates := Candidates(backend, c.text, backend.space(c.text), c.start);
    best :| best < |candidates| && candidates[best].config == c.config && candidates[best].kernel.Some?
            && BestOf(backend, benchmark, candidates, c.now, Some(best));
  }

  lemma BestIsFastest(backend: Backend, warmup: nat, runs: nat, candidates: seq<Candidate>, now: nat, best: nat, i: nat)
    requires best < |candidates| && i < |candidates| && |candidates| > 1 && candidates[i].kernel.Some?
    requires candidates[best].kernel.Some? && BestOf(backend, Simple(warmup, runs), candidates, now, Some(best))
    requires TimeOrInvalid(backend.time(now, i, Call(i, warmup, 1, runs))).Finite?
    ensures var mine := TimeOrInvalid(backend.time(now, best, Call(best, warmup, 1, runs)));
            mine.Finite? && mine.ms <= TimeOrInvalid(backend.time(now, i, Call(i, warmup, 1, runs))).ms
  {
    var n, timer := |candidates|, CandidateTimer(backend, candidates, now);
    var times := Answers(timer, seq(n, j requires j >= 0 => Call(j, warmup, 1, runs)));
    assert times[i] == TimeOrInvalid(timer(i, Call(i, warmup, 1, runs)));
    assert times[best] == TimeOrInvalid(timer(best, Call(best, warmup, 1, runs)));
    assert !NoneFinite(times);
  }

  /** What winning a simple benchmark means: no perfConfig of the module's search space that compiled
      in that contest had a smaller time in it. */
  lemma FairIsFastest(backend: Backend, warmup: nat, runs: nat, c: Contest, i: nat) returns (w: nat)
    requires Fair(backend, Simple(warmup, runs), c) && i < |backend.space(c.text)| && |backend.space(c.text)| > 1
    requires backend.compile(c.start + i, c.text, backend.space(c.text)[i]).Some?
    requires TimeOrInvalid(backend.time(c.now, i, Call(i, warmup, 1, runs))).Finite?
    ensures w < |backend.space(c.text)| && backend.space(c.text)[w] == c.config
    ensures backend.compile(c.start + w, c.text, c.config).Some?
    ensures var mine := TimeOrInvalid(backend.time(c.now, w, Call(w, warmup, 1, runs)));
            mine.Finite? && mine.ms <= TimeOrInvalid(backend.time(c.now, i, Call(i, warmup, 1, runs))).ms
  {
    hide Fair, BestOf;
    w := FairWinnerOf(backend, Simple(warmup, runs), c);
    BestIsFastest(backend, warmup, runs, Candidates(backend, c.text, backend.space(c.text), c.start), c.now, w, i);
  }

  lemma FinishedHit(backend: Backend, contests: set<Contest>, queued: map<string, string>, refused: set<string>,
                    configOf: map<string, string>, byKernel: map<string, CompiledKernel>, base: set<string>,
                    hits: seq<DeferredCacheHit>, i: nat, winners: map<string, string>, kernel: CompiledKernel, config: string,
                    more: set<string>)
    requires i < |hits| && Finished(backend, contests, queued, refused, configOf, byKernel, base + HitNames(hits[..i]), winners)
    requires hits[i].name in queued && queued[hits[i].name] == hits[i].text
    requires FinishedOne(backend, contests, hits[i].text, kernel, config, hits[i].name in more, winners)
    requires forall m | m != hits[i].name :: m in more <==> m in refused
    ensures Finished(backend, contests, queued, more, configOf[hits[i].name := config], byKernel[hits[i].name := kernel],
                     base + HitNames(hits[..i + 1]), winners)
  {
    hide Finished, FinishedOne, HitNames;
    FinishedStep(backend, contests, queued, refused, configOf, byKernel, base + HitNames(hits[..i]), winners,
                 hits[i].name, kernel, config, more, winners);
    HitNamesAppend(hits[..i], hits[i]);
    assert hits[..i] + [hits[i]] == hits[..i + 1];
    assert base + HitNames(hits[..i]) + {hits[i].name} == base + HitNames(hits[..i + 1]);
  }

  /** What the pool gave for the cached perfConfig of a hit. */
  ghost predicate HitCompiled(backend: Backend, hit: DeferredCacheHit, kernel: Option<Compiled>) {
    if kernel.Some? then Built(backend, kernel.value, hit.text, hit.config) else Failed(backend, hit.text, hit.config)
  }

  lemma SettledHit(backend: Backend, contests: set<Contest>, hit: DeferredCacheHit, kernel: Option<Compiled>,
                   out: CompiledKernel, config: string, winners: map<string, string>)
    requires HitCompiled(backend, hit, kernel) && backend.problemKey(hit.text) == Some(hit.key)
    requires if kernel.Some? then out == kernel.value && config == hit.config
             else Built(backend, out, hit.text, config) && Won(contests, hit.text, config)
    ensures hit.key in winners && winners[hit.key] == hit.config ==>
              FinishedOne(backend, contests, hit.text, out, config, kernel.None?, winners)
  {
    hide Built, Won, Failed;
  }

  class RocMlirAutotuner {
    const backend: Backend
    const benchmark: Benchmark

    var winnerCache: map<string, string>
    var searches: seq<DeferredSearch>
    var cacheHits: seq<DeferredCacheHit>
    var pendingWinners: seq<PendingWinnerCompile>
    var searchesInFlight: set<string>
    /** Number of backend calls so far. */
    var clock: nat

    /** Kernels queued since the last successful `Finish`, with their modules. */
    ghost var queued: map<string, string>
    /** Winner picks by problem key, and cached compiles that failed. */
    ghost var picks: multiset<Option<string>>
    ghost var refusals: multiset<Option<string>>
    /** Kernels whose cached perfConfig failed to compile in the current `Finish`. */
    ghost var refused: set<string>
    /** The perfConfig each finished kernel was compiled with. */
    ghost var configOf: map<string, string>
    /** The benchmarks that picked a winner. */
    ghost var contests: set<Contest>
    /** The winners before any of them failed to compile for a later kernel. */
    ghost var won: map<string, string>

    ghost predicate Known(name: string, text: string)
      reads this`queued
    {
      name in queued && queued[name] == text
    }

    /** One search per problem, and none for a problem whose winner is known. */
    ghost predicate SearchesOk(queue: seq<DeferredSearch>)
      reads this`queued, this`winnerCache
    {
      && (forall i | 0 <= i < |queue| ::
            && Known(queue[i].name, queue[i].text) && queue[i].configs == backend.space(queue[i].text)
            && queue[i].key == backend.problemKey(queue[i].text))
      && DistinctKeys(queue)
      && KeysInFlight(queue) !! winnerCache.Keys
    }

    /** Hits carry their problem's winner. */
    ghost predicate HitsOk(hits: seq<DeferredCacheHit>, winners: map<string, string>)
      reads this`queued
    {
      forall i | 0 <= i < |hits| ::
        && Known(hits[i].name, hits[i].text) && backend.problemKey(hits[i].text) == Some(hits[i].key)
        && hits[i].key in winners && winners[hits[i].key] == hits[i].config
    }

    /** Every pick is one fair contest. */
    ghost predicate Scored()
      reads this`contests, this`clock, this`picks
    {
      ContestsOk(backend, benchmark, contests, clock) && |contests| == |picks|
    }

    /** Holds in every reachable state, also after a failed `Finish`. */
    ghost predicate Sound()
      reads this`contests, this`clock, this`picks, this`winnerCache, this`queued
      reads this`searches, this`searchesInFlight, this`pendingWinners, this`cacheHits
    {
      && Scored() && CacheOk(backend, contests, winnerCache)
      && SearchesOk(searches)
      && searchesInFlight == KeysInFlight(searches)
      && (forall i | 0 <= i < |pendingWinners| ::
            && Known(pendingWinners[i].name, pendingWinners[i].text)
            && backend.problemKey(pendingWinners[i].text) == Some(pendingWinners[i].key))
      && HitsOk(cacheHits, winnerCache)
    }

    /** A kernel waits for a winner that no queued search will produce. */
    ghost predicate Stranded()
      reads this
    {
      exists i :: 0 <= i < |pendingWinners|
                  && pendingWinners[i].key !in searchesInFlight && pendingWinners[i].key !in winnerCache
    }

    /** Every queued kernel sits in one of the queues and none is stranded. */
    ghost predicate Clean()
      reads this
    {
      && Sound() && !Stranded()
      && queued.Keys == SearchNames(searches) + HitNames(cacheHits) + PendingNames(pendingWinners)
    }

    ghost predicate Idle()
      reads this`searches, this`cacheHits, this`pendingWinners, this`searchesInFlight
    {
      searches == [] && cacheHits == [] && pendingWinners == [] && searchesInFlight == {}
    }

    constructor (backend: Backend, benchmark: Benchmark)
      ensures Clean() && Idle() && winnerCache == map[] && queued == map[]
      ensures this.backend == backend && this.benchmark == benchmark
    {
      this.backend, this.benchmark := backend, benchmark;
      winnerCache, searches, cacheHits, pendingWinners, searchesInFlight := map[], [], [], [], {};
      clock, queued, picks, refusals, refused, configOf, won := 0, map[], multiset{}, multiset{}, {}, map[], map[];
      contests := {};
    }

    /** One module compiled with every perfConfig. */
    method CompileAll(text: string, configs: seq<string>) returns (candidates: seq<Candidate>)
      modifies this`clock
      ensures candidates == Candidates(backend, text, configs, old(clock)) && |candidates| == |configs|
      ensures clock == old(clock) + |configs|
    {
      candidates := [];
      while |candidates| < |configs|
        invariant |candidates| <= |configs| && clock == old(clock) + |candidates|
        invariant candidates == Candidates(backend, text, configs, old(clock))[..|candidates|]
      {
        var config := configs[|candidates|];
        var kernel := backend.compile(clock, text, config);
        clock := clock + 1;
        candidates := candidates + [Candidate(config, kernel)];
      }
    }

    /** The winner is the one the benchmark's rules name, and it is a candidate that compiled. */
    method PickWinner(candidates: seq<Candidate>) returns (best: Option<nat>)
      modifies this`clock
      ensures BestOf(backend, benchmark, candidates, old(clock), best) && clock == old(clock) + 1
      ensures best.Some? ==> best.value < |candidates| && candidates[best.value].kernel.Some?
    {
      var now := clock;
      clock := clock + 1;
      if |candidates| == 1 && candidates[0].kernel.Some? { return Some(0); }
      var n, timer := |candidates|, CandidateTimer(backend, candidates, now);
      if !backend.buffersReady(now) { return None; }
      var selection: Option<Selection>;
      if benchmark.Simple? {
        var calls;
        selection, calls := SelectBySimpleBenchmark(n, benchmark.warmup, 1, benchmark.runs, timer);
        if selection.Some? {
          var w := selection.value.winner;
          assert TimeOrInvalid(timer(w, calls[w])) == Answers(timer, calls)[w];
        }
      } else {
        var calls;
        ghost var order;
        selection, calls, order := SelectByAdaptiveBenchmark(n, ADAPTIVE_DEFAULTS, timer);
        if selection.Some? {
          ghost var k, call := WinnerWasTimed(n, timer, selection.value, calls, order);
          assert candidates[call.index].kernel.Some?;
        }
      }
      best := if selection.None? then None else Some(selection.value.winner);
    }

    /** Keeps the winner of the candidates that the pool compiled from call `start` on, and remembers
        its perfConfig. */
    method KeepWinner(text: string, candidates: seq<Candidate>, ghost start: nat)
      returns (ok: bool, kernel: Option<Compiled>, config: string)
      requires Scored() && CacheOk(backend, contests, winnerCache)
      requires candidates == Candidates(backend, text, backend.space(text), start) && start + |candidates| <= clock
      modifies this`winnerCache, this`clock, this`picks, this`contests
      ensures Scored() && CacheOk(backend, contests, winnerCache) && old(contests) <= contests && clock >= old(clock)
      ensures ok <==> !BestOf(backend, benchmark, candidates, old(clock), None)
      ensures ok ==>
                && kernel.Some? && Built(backend, kernel.value, text, config) && Won(contests, text, config)
                && Remembers(old(winnerCache), winnerCache, backend.problemKey(text), config)
                && picks == old(picks) + multiset{backend.problemKey(text)}
      ensures !ok ==> unchanged(this`winnerCache, this`picks, this`contests)
    {
      hide BestOf, CacheOk, ContestsOk, Fair, Won, Built, Candidates;
      var best := PickWinner(candidates);
      ContestsStay(backend, benchmark, contests, old(clock), clock);
      if best.None? { return false, None, ""; }
      NobodyOrOne(backend, benchmark, candidates, old(clock), best.value);
      config, kernel := candidates[best.value].config, candidates[best.value].kernel;
      var key := backend.problemKey(text);
      ghost var held := Contest(text, start, old(clock), config);
      FairWinner(backend, benchmark, held, candidates, best.value);
      NewContest(backend, benchmark, contests, held, old(clock));
      picks, contests := picks + multiset{key}, contests + {held};
      if key.Some? { winnerCache := winnerCache[key.value := config]; }
      HeldMeansWon(contests, held);
      CacheOkStep(backend, old(contests), old(winnerCache), text, config, contests, winnerCache);
      ok := true;
    }

    method QueueCacheHit(text: string, name: string, key: string)
      requires Sound() && name !in queued && backend.problemKey(text) == Some(key) && key in winnerCache
      modifies this`cacheHits, this`queued
      ensures Sound() && (old(Clean()) ==> Clean()) && queued == old(queued)[name := text]
      ensures cacheHits == old(cacheHits) + [DeferredCacheHit(name, text, key, winnerCache[key])]
    {
      hide SearchNames, KeysInFlight, HitNames, PendingNames, CacheOk, Scored;
      queued := queued[name := text];
      cacheHits := cacheHits + [DeferredCacheHit(name, text, key, winnerCache[key])];
      HitNamesAppend(old(cacheHits), DeferredCacheHit(name, text, key, winnerCache[key]));
    }

    method QueuePending(text: string, name: string, key: string)
      requires Sound() && name !in queued && backend.problemKey(text) == Some(key) && key in searchesInFlight
      modifies this`pendingWinners, this`queued
      ensures Sound() && (old(Clean()) ==> Clean()) && queued == old(queued)[name := text]
      ensures pendingWinners == old(pendingWinners) + [PendingWinnerCompile(name, text, key)]
    {
      hide SearchNames, KeysInFlight, HitNames, PendingNames, CacheOk, Scored;
      queued := queued[name := text];
      pendingWinners := pendingWinners + [PendingWinnerCompile(name, text, key)];
      PendingNamesAppend(old(pendingWinners), PendingWinnerCompile(name, text, key));
    }

    method QueueSearch(text: string, name: string, key: Option<string>, configs: seq<string>)
      requires Sound() && name !in queued && backend.problemKey(text) == key && configs == backend.space(text)
      requires key.Some? ==> key.value !in searchesInFlight && key.value !in winnerCache
      modifies this`searches, this`searchesInFlight, this`queued
      ensures Sound() && (old(Clean()) ==> Clean()) && queued == old(queued)[name := text]
      ensures searches == old(searches) + [DeferredSearch(name, text, key, configs)]
      ensures searchesInFlight == old(searchesInFlight) + if key.Some? then {key.value} else {}
    {
      hide SearchNames, KeysInFlight, HitNames, PendingNames, CacheOk, Scored, DistinctKeys;
      queued := queued[name := text];
      if key.Some? { searchesInFlight := searchesInFlight + {key.value}; }
      searches := searches + [DeferredSearch(name, text, key, configs)];
      SearchNamesAppend(old(searches), DeferredSearch(name, text, key, configs));
      KeysInFlightAppend(old(searches), DeferredSearch(name, text, key, configs));
      DistinctAppend(old(searches), DeferredSearch(name, text, key, configs));
    }

    /** `autotuneKernel` on the fallback path, with nothing queued: compiles the kernel at once, with
        the cached winner of its problem or, when there is none or it fails, with a fresh one. */
    method TuneNow(text: string) returns (outcome: Outcome, out: Option<Compiled>, config: string)
      requires Idle() && Scored() && CacheOk(backend, contests, winnerCache)
      modifies this`winnerCache, this`clock, this`picks, this`refusals, this`contests
      ensures Scored() && CacheOk(backend, contests, winnerCache) && old(contests) <= contests
      ensures outcome == Done || outcome == EmptySpace || outcome == NotRunnable
      ensures var key := backend.problemKey(text);
              picks == old(picks) && outcome.Done? <==>
                && key.Some? && key.value in old(winnerCache)
                && backend.compile(old(clock), text, old(winnerCache)[key.value]).Some?
      ensures !outcome.Done? ==> FailsWith(backend, benchmark, text, outcome)
      ensures outcome.Done? ==>
                && out.Some? && Built(backend, out.value, text, config)
                && Remembers(old(winnerCache), winnerCache, backend.problemKey(text), config)
                && if picks == old(picks) then
                     && backend.problemKey(text).Some? && backend.problemKey(text).value in old(winnerCache)
                     && unchanged(this`winnerCache, this`refusals, this`contests)
                   else
                     && Won(contests, text, config) && picks == old(picks) + multiset{backend.problemKey(text)}
                     && refusals == old(refusals) + if backend.problemKey(text).Some? && backend.problemKey(text).value in old(winnerCache)
                                                    then multiset{backend.problemKey(text)} else multiset{}
    {
      hide CacheOk, Won, Built, Candidates, ContestsOk, BestOf, NobodyWins;
      var key := backend.problemKey(text);
      if key.Some? && key.value in winnerCache {
        config := winnerCache[key.value];
        out := backend.compile(clock, text, config);
        CompileTells(backend, clock, text, config);
        ContestsStay(backend, benchmark, contests, clock, clock + 1);
        clock := clock + 1;
        if out.Some? { return Done, out, config; }
        refusals := refusals + multiset{key};
        winnerCache := winnerCache - {key.value};
        CacheOkErase(backend, contests, old(winnerCache), key.value);
      }
      var configs := backend.space(text);
      if configs == [] { return EmptySpace, None, ""; }
      ghost var start := clock;
      var candidates := CompileAll(text, configs);
      ContestsStay(backend, benchmark, contests, start, clock);
      ghost var now := clock;
      var ok;
      ok, out, config := KeepWinner(text, candidates, start);
      if !ok { NobodyWon(backend, benchmark, text, start, now); }
      outcome := if ok then Done else NotRunnable;
    }

    /** Where a newly queued kernel went: known problems wait with the cached winner, problems
        being searched wait for that search, anything else starts a search. */
    twostate predicate Queues(text: string, name: string)
      reads this
    {
      var key := backend.problemKey(text);
      if key.Some? && key.value in old(winnerCache) then
        && cacheHits == old(cacheHits) + [DeferredCacheHit(name, text, key.value, old(winnerCache)[key.value])]
        && unchanged(this`searches, this`pendingWinners, this`searchesInFlight)
      else if key.Some? && key.value in old(searchesInFlight) then
        && pendingWinners == old(pendingWinners) + [PendingWinnerCompile(name, text, key.value)]
        && unchanged(this`searches, this`cacheHits, this`searchesInFlight)
      else
        && searches == old(searches) + [DeferredSearch(name, text, key, backend.space(text))]
        && searchesInFlight == old(searchesInFlight) + (if key.Some? then {key.value} else {})
        && unchanged(this`pendingWinners, this`cacheHits)
    }

    /** `autotuneKernel` as the kernel loop calls it: only queues. */
    method AutotuneKernel(text: string, name: string) returns (outcome: Outcome)
      requires Sound() && name !in queued
      modifies this`searches, this`cacheHits, this`pendingWinners, this`searchesInFlight, this`queued
      ensures Sound() && (old(Clean()) ==> Clean())
      ensures outcome == Done || (outcome == EmptySpace && backend.space(text) == [] && unchanged(this))
      ensures outcome.Done? ==> queued == old(queued)[name := text] && Queues(text, name)
    {
      hide SearchNames, KeysInFlight, HitNames, PendingNames, CacheOk, Scored;
      var key := backend.problemKey(text);
      if key.Some? {
        if key.value in winnerCache {
          QueueCacheHit(text, name, key.value);
          return Done;
        }
        if key.value in searchesInFlight {
          QueuePending(text, name, key.value);
          return Done;
        }
      }
      var configs := backend.space(text);
      if configs == [] { return EmptySpace; }
      QueueSearch(text, name, key, configs);
      outcome := Done;
    }

    /** What the pool leaves of one search. */
    ghost predicate Pooled(search: DeferredSearch, candidates: seq<Candidate>, start: nat, now: nat) {
      candidates == Candidates(backend, search.text, search.configs, start) && start + |search.configs| <= now
      && |candidates| == |search.configs|
    }

    /** Reads one queued module back and benchmarks its candidates. */
    method BenchmarkOne(search: DeferredSearch, candidates: seq<Candidate>, ghost start: nat)
      returns (outcome: Outcome, kernel: Option<Compiled>, config: string)
      requires Sound() && searches == [] && search.key == backend.problemKey(search.text)
      requires candidates == Candidates(backend, search.text, backend.space(search.text), start)
      requires start + |candidates| <= clock
      requires search.key.Some? ==> search.key.value !in winnerCache
      modifies this`winnerCache, this`clock, this`picks, this`configOf, this`contests
      ensures Sound() && old(contests) <= contests && clock >= old(clock)
      ensures outcome == Unparsed <==> !backend.parses(search.text)
      ensures outcome == NotRunnable <==>
                backend.parses(search.text) && BestOf(backend, benchmark, candidates, old(clock), None)
      ensures !outcome.Done? ==> FailsWith(backend, benchmark, search.text, outcome)
      ensures outcome.Done? ==>
                && backend.parses(search.text) && kernel.Some? && Built(backend, kernel.value, search.text, config)
                && Won(contests, search.text, config)
                && Remembers(old(winnerCache), winnerCache, search.key, config)
                && picks == old(picks) + multiset{search.key} && configOf == old(configOf)[search.name := config]
      ensures !outcome.Done? ==>
                && (outcome == Unparsed || outcome == NotRunnable)
                && unchanged(this`winnerCache, this`picks, this`configOf, this`contests)
    {
      hide Built, Won, CacheOk, Candidates, ContestsOk, BestOf, NobodyWins;
      if !backend.parses(search.text) { return Unparsed, None, ""; }
      var ok;
      ok, kernel, config := KeepWinner(search.text, candidates, start);
      if !ok {
        NobodyWon(backend, benchmark, search.text, start, old(clock));
        return NotRunnable, None, "";
      }
      configOf := configOf[search.name := config];
      outcome := Done;
    }

    ghost function Snapshot(byKernel: map<string, CompiledKernel>): Books
      reads this
    {
      Books(queued, refused, configOf, winnerCache, picks, byKernel)
    }

    /** Benchmarks the queued searches in order; `compiled[i]` are the candidates of search `i`. */
    method BenchmarkSearches(queue: seq<DeferredSearch>, compiled: seq<seq<Candidate>>, ghost starts: seq<nat>,
                             byKernel: map<string, CompiledKernel>)
      returns (outcome: Outcome, result: map<string, CompiledKernel>, ghost count: nat)
      requires SearchesOk(queue) && Sound() && searches == [] && |compiled| == |queue| && refused == {}
      requires |starts| == |queue| && forall i | 0 <= i < |queue| :: Pooled(queue[i], compiled[i], starts[i], clock)
      modifies this`winnerCache, this`clock, this`picks, this`configOf, this`contests
      ensures Sound() && count <= |queue| && old(contests) <= contests
      ensures Grew(old(winnerCache), winnerCache, KeysInFlight(queue[..count]))
      ensures forall i | 0 <= i < count :: backend.parses(queue[i].text)
      ensures outcome.Done? ==>
                && count == |queue| && picks == old(picks) + SearchKeys(queue)
                && Finished(backend, contests, queued, refused, configOf, result, SearchNames(queue), winnerCache)
      ensures result.Keys <= byKernel.Keys + SearchNames(queue[..count])
      ensures !outcome.Done? ==>
                && count < |queue| && (outcome == Unparsed || outcome == NotRunnable)
                && FailsWith(backend, benchmark, queue[count].text, outcome)
    {
      hide Built, Won, Candidates, Sound, KeysInFlight, SearchNames, SearchKeys, Finished, DistinctKeys, Remembers, SearchesDone,
           Grew, BestOf, FailsWith;
      result, count, outcome := byKernel, 0, Done;
      var i := 0;
      ghost var start := Snapshot(byKernel);
      NoSearchesDone(backend, contests, queue, start);
      assert queue[..|queue|] == queue;
      while i < |queue|
        invariant i == count <= |queue| && Sound() && outcome == Done && clock >= old(clock) && old(contests) <= contests
        invariant SearchesDone(backend, contests, queue, i, start, Snapshot(result))
        invariant forall j | 0 <= j < i :: backend.parses(queue[j].text)
      {
        ghost var now, held := Snapshot(result), contests;
        NextKeyIsFresh(backend, contests, queue, i, start, now);
        var kernel, config;
        outcome, kernel, config := BenchmarkOne(queue[i], compiled[i], starts[i]);
        if outcome != Done { break; }
        SearchesDoneStep(backend, held, queue, i, start, now, kernel.value, config, contests, winnerCache);
        result := result[queue[i].name := kernel.value];
        i, count := i + 1, count + 1;
      }
      SearchesDoneMeans(backend, contests, queue, i, start, Snapshot(result));
    }

    /** Kernels that waited for a search become cache hits. */
    method PromotePending() returns (outcome: Outcome)
      requires Sound() && searches == []
      modifies this`pendingWinners, this`cacheHits
      ensures Sound() && pendingWinners == []
      ensures outcome == if old(Stranded()) then NoWinner else Done
      ensures outcome.Done? ==> HitNames(cacheHits) == old(HitNames(cacheHits)) + old(PendingNames(pendingWinners))
    {
      hide PendingNames, HitNames, CacheOk, Scored;
      var pending := pendingWinners;
      pendingWinners := [];
      var i := 0;
      assert pending[..0] == [] && pending[..|pending|] == pending;
      EmptyQueue();
      while i < |pending|
        invariant i <= |pending| && Sound() && pendingWinners == []
        invariant forall j | 0 <= j < i :: pending[j].key in winnerCache
        invariant HitNames(cacheHits) == old(HitNames(cacheHits)) + PendingNames(pending[..i])
      {
        var item := pending[i];
        if item.key !in winnerCache { return NoWinner; }
        var hit := DeferredCacheHit(item.name, item.text, item.key, winnerCache[item.key]);
        HitNamesAppend(cacheHits, hit);
        PendingNamesAppend(pending[..i], item);
        assert pending[..i] + [item] == pending[..i + 1];
        cacheHits := cacheHits + [hit];
        i := i + 1;
      }
      outcome := Done;
    }

    /** One pool compiles every candidate of every queued search. */
    method CompileQueue(queue: seq<DeferredSearch>) returns (compiled: seq<seq<Candidate>>, ghost starts: seq<nat>)
      modifies this`clock
      ensures |compiled| == |queue| == |starts| && clock >= old(clock)
      ensures forall i | 0 <= i < |queue| :: Pooled(queue[i], compiled[i], starts[i], clock)
    {
      hide Candidates;
      compiled, starts := [], [];
      while |compiled| < |queue|
        invariant |compiled| == |starts| <= |queue| && clock >= old(clock)
        invariant forall i | 0 <= i < |compiled| :: Pooled(queue[i], compiled[i], starts[i], clock)
      {
        starts := starts + [clock];
        var search := queue[|compiled|];
        var candidates := CompileAll(search.text, search.configs);
        compiled := compiled + [candidates];
      }
    }

    lemma SearchNamesKnown(queue: seq<DeferredSearch>, count: nat)
      requires count <= |queue| && forall i | 0 <= i < |queue| :: Known(queue[i].name, queue[i].text)
      ensures SearchNames(queue[..count]) <= queued.Keys
    {
    }

    /** New winners come only from searches whose module could be read back. */
    ghost predicate OnlyFromReadable(before: map<string, string>, queue: seq<DeferredSearch>)
      reads this`winnerCache
    {
      forall k | k in winnerCache && k !in before ::
        exists i :: 0 <= i < |queue| && queue[i].key == Some(k) && backend.parses(queue[i].text)
    }

    /** Some queued module is to blame for the outcome. */
    ghost predicate Blamed(outcome: Outcome)
      reads this`queued
    {
      exists n :: n in queued && FailsWith(backend, benchmark, queued[n], outcome)
    }

    lemma Blame(name: string, text: string, outcome: Outcome)
      requires Known(name, text) && FailsWith(backend, benchmark, text, outcome)
      ensures Blamed(outcome)
    {
      hide FailsWith;
    }

    /** Compiles every candidate of every queued search and benchmarks the searches. */
    method RunSearches(byKernel: map<string, CompiledKernel>) returns (outcome: Outcome, result: map<string, CompiledKernel>)
      requires Sound() && refused == {}
      modifies this`searches, this`searchesInFlight, this`winnerCache, this`clock, this`picks, this`configOf, this`contests
      ensures Sound() && searches == [] && searchesInFlight == {} && old(contests) <= contests && outcome != NoWinner
      ensures outcome.Done? ==>
                && Grew(old(winnerCache), winnerCache, old(searchesInFlight)) && picks == old(picks) + SearchKeys(old(searches))
                && Finished(backend, contests, queued, refused, configOf, result, SearchNames(old(searches)), winnerCache)
      ensures result.Keys <= byKernel.Keys + queued.Keys && OnlyFromReadable(old(winnerCache), old(searches))
      ensures !outcome.Done? ==> Blamed(outcome)
      ensures outcome.Done? ==> forall i | 0 <= i < |old(searches)| :: backend.parses(old(searches)[i].text)
      ensures old(searches) == [] ==> outcome.Done?
    {
      hide Built, Candidates, KeysInFlight, SearchNames, SearchKeys, HitNames, PendingNames, Finished, DistinctKeys, CacheOk,
           Pooled, ContestsOk, HitsOk, FailsWith, Blamed;
      var queue := searches;
      searches, searchesInFlight := [], {};
      EmptyQueue();
      ghost var before, starts, count := clock, [], 0;
      var compiled;
      compiled, starts := CompileQueue(queue);
      ContestsStay(backend, benchmark, contests, before, clock);
      outcome, result, count := BenchmarkSearches(queue, compiled, starts, byKernel);
      SearchNamesKnown(queue, count);
      forall k | k in winnerCache && k !in old(winnerCache) ensures exists i :: 0 <= i < count && queue[i].key == Some(k) {
        KeyHasSearch(queue, count, k);
      }
      assert outcome.Done? ==> queue[..count] == queue;
      if outcome != Done { Blame(queue[count].name, queue[count].text, outcome); }
    }

    /** First pass of `Finish`: the searches, and then the kernels that waited for them become
        cache hits. */
    method CompileAndBenchmarkSearches(byKernel: map<string, CompiledKernel>)
      returns (outcome: Outcome, result: map<string, CompiledKernel>)
      requires Sound() && refused == {}
      modifies this`searches, this`searchesInFlight, this`pendingWinners, this`cacheHits, this`winnerCache, this`clock,
               this`picks, this`configOf, this`contests
      ensures Sound() && searches == [] && searchesInFlight == {} && old(contests) <= contests
      ensures outcome.Done? ==>
                && pendingWinners == [] && !old(Stranded())
                && Grew(old(winnerCache), winnerCache, old(searchesInFlight)) && picks == old(picks) + SearchKeys(old(searches))
                && HitNames(cacheHits) == old(HitNames(cacheHits)) + old(PendingNames(pendingWinners))
                && Finished(backend, contests, queued, refused, configOf, result, SearchNames(old(searches)), winnerCache)
      ensures outcome == NoWinner ==> old(Stranded())
      ensures outcome != Done && outcome != NoWinner ==> Blamed(outcome)
      ensures result.Keys <= byKernel.Keys + queued.Keys
      ensures old(Stranded()) && old(searches) == [] ==> outcome == NoWinner
      ensures (exists i :: 0 <= i < |old(searches)| && !backend.parses(old(searches)[i].text)) ==>
                && !outcome.Done? && pendingWinners == old(pendingWinners)
                && OnlyFromReadable(old(winnerCache), old(searches))
    {
      hide Sound, SearchNames, SearchKeys, HitNames, PendingNames, Finished, OnlyFromReadable, Blamed;
      outcome, result := RunSearches(byKernel);
      if outcome != Done { return; }
      outcome := PromotePending();
    }

    /** A cache hit keeps what its own compile gave; when that failed, its problem is forgotten
        and the kernel searched on its own. */
    method SettleHit(hit: DeferredCacheHit, kernel: Option<Compiled>)
      returns (outcome: Outcome, out: Option<Compiled>, config: string)
      requires Idle() && Scored() && CacheOk(backend, contests, winnerCache)
      requires Known(hit.name, hit.text) && backend.problemKey(hit.text) == Some(hit.key)
      requires HitCompiled(backend, hit, kernel)
      modifies this`winnerCache, this`clock, this`picks, this`refusals, this`refused, this`configOf, this`contests
      ensures Scored() && CacheOk(backend, contests, winnerCache) && old(contests) <= contests && outcome != NoWinner
      ensures !outcome.Done? ==> FailsWith(backend, benchmark, hit.text, outcome)
      ensures outcome.Done? ==>
                && out.Some? && configOf == old(configOf)[hit.name := config]
                && Balanced(old(picks), old(refusals), picks, refusals)
                && refused == (if kernel.Some? then old(refused) - {hit.name} else old(refused) + {hit.name})
                && (hit.key in won && won[hit.key] == hit.config ==>
                      FinishedOne(backend, contests, hit.text, out.value, config, hit.name in refused, won))
                && (kernel.Some? ==> config == hit.config && unchanged(this`winnerCache))
                && (kernel.None? ==> Remembers(old(winnerCache) - {hit.key}, winnerCache, Some(hit.key), config))
    {
      hide Built, Won, Failed, CacheOk, Scored, FinishedOne, HitCompiled, NobodyWins;
      if kernel.Some? {
        configOf, refused := configOf[hit.name := hit.config], refused - {hit.name};
        SettledHit(backend, contests, hit, kernel, kernel.value, hit.config, won);
        return Done, kernel, hit.config;
      }
      winnerCache := winnerCache - {hit.key};
      CacheOkErase(backend, contests, old(winnerCache), hit.key);
      refused, refusals := refused + {hit.name}, refusals + multiset{Some(hit.key)};
      if !backend.parses(hit.text) { return Unparsed, None, ""; }
      outcome, out, config := TuneNow(hit.text);
      configOf := configOf[hit.name := config];
      if outcome == Done { SettledHit(backend, contests, hit, kernel, out.value, config, won); }
    }

    lemma IdleIsSound()
      requires Idle() && Scored() && CacheOk(backend, contests, winnerCache)
      ensures Sound()
    {
    }

    /** One pool compiles the cached perfConfig of every hit. */
    method CompileHits(hits: seq<DeferredCacheHit>) returns (kernels: seq<Option<Compiled>>)
      modifies this`clock
      ensures |kernels| == |hits| && clock >= old(clock)
      ensures forall i | 0 <= i < |hits| :: HitCompiled(backend, hits[i], kernels[i])
    {
      kernels := [];
      while |kernels| < |hits|
        invariant |kernels| <= |hits| && clock >= old(clock)
        invariant forall i | 0 <= i < |kernels| :: HitCompiled(backend, hits[i], kernels[i])
      {
        var kernel := backend.compile(clock, hits[|kernels|].text, hits[|kernels|].config);
        clock := clock + 1;
        kernels := kernels + [kernel];
      }
    }

    /** Between two hits: the contests are fair, and the winners of before and of now won theirs. */
    ghost predicate Steady()
      reads this
    {
      Scored() && CacheOk(backend, contests, winnerCache) && CacheOk(backend, contests, won)
    }

    /** Settles hit `i`, the hits before it and the kernels in `base` being finished. */
    method SettleNext(hits: seq<DeferredCacheHit>, i: nat, kernel: Option<Compiled>, byKernel: map<string, CompiledKernel>,
                      ghost base: set<string>)
      returns (outcome: Outcome, result: map<string, CompiledKernel>)
      requires Idle() && Steady()
      requires HitsOk(hits, won) && i < |hits| && HitCompiled(backend, hits[i], kernel)
      requires Finished(backend, contests, queued, refused, configOf, byKernel, base + HitNames(hits[..i]), won)
      modifies this`winnerCache, this`clock, this`picks, this`refusals, this`refused, this`configOf, this`contests
      ensures Steady()
      ensures old(contests) <= contests && outcome != NoWinner && result.Keys <= byKernel.Keys + queued.Keys
      ensures !outcome.Done? ==> Blamed(outcome)
      ensures outcome.Done? ==>
                && Finished(backend, contests, queued, refused, configOf, result, base + HitNames(hits[..i + 1]), won)
                && Balanced(old(picks), old(refusals), picks, refusals)
    {
      hide Built, Won, Failed, CacheOk, Scored, HitNames, Finished, FinishedOne, Remembers, HitCompiled, FailsWith, Blamed;
      result := byKernel;
      ghost var configs, before, held := configOf, refused, contests;
      var out, config;
      outcome, out, config := SettleHit(hits[i], kernel);
      CacheOkGrows(backend, held, won, contests);
      if outcome != Done {
        Blame(hits[i].name, hits[i].text, outcome);
        return;
      }
      FinishedGrows(backend, held, contests, queued, before, configs, byKernel, base + HitNames(hits[..i]), won);
      FinishedHit(backend, contests, queued, before, configs, byKernel, base, hits, i, won, out.value, config, refused);
      result := result[hits[i].name := out.value];
    }

    /** Settles the hits in order. */
    method SettleAll(hits: seq<DeferredCacheHit>, kernels: seq<Option<Compiled>>, byKernel: map<string, CompiledKernel>,
                     ghost base: set<string>)
      returns (outcome: Outcome, result: map<string, CompiledKernel>)
      requires Idle() && Steady()
      requires HitsOk(hits, won) && |kernels| == |hits|
      requires forall i | 0 <= i < |hits| :: HitCompiled(backend, hits[i], kernels[i])
      requires Finished(backend, contests, queued, refused, configOf, byKernel, base, won)
      modifies this`winnerCache, this`clock, this`picks, this`refusals, this`refused, this`configOf, this`contests
      ensures Steady()
      ensures old(contests) <= contests && outcome != NoWinner && result.Keys <= byKernel.Keys + queued.Keys
      ensures !outcome.Done? ==> Blamed(outcome)
      ensures outcome.Done? ==>
                && Finished(backend, contests, queued, refused, configOf, result, base + HitNames(hits), won)
                && Balanced(old(picks), old(refusals), picks, refusals)
    {
      hide Steady, Idle, HitNames, Finished, HitCompiled, HitsOk, Balanced, Blamed;
      BalanceStart(picks, refusals);
      result, outcome := byKernel, Done;
      var i := 0;
      EmptyQueue();
      assert hits[..0] == [] && hits[..|hits|] == hits && base + {} == base;
      while i < |hits|
        invariant i <= |hits| && outcome == Done
        invariant Steady()
        invariant old(contests) <= contests && result.Keys <= byKernel.Keys + queued.Keys
        invariant Finished(backend, contests, queued, refused, configOf, result, base + HitNames(hits[..i]), won)
        invariant Balanced(old(picks), old(refusals), picks, refusals)
      {
        ghost var picked, refusedBefore := picks, refusals;
        outcome, result := SettleNext(hits, i, kernels[i], result, base);
        if outcome != Done { return; }
        BalanceAdds(old(picks), old(refusals), picked, refusedBefore, picks, refusals);
        i := i + 1;
      }
    }

    /** Second pass of `Finish`: every kernel that reused a winner; `base` names those done before. */
    method CompileDeferredCacheHits(byKernel: map<string, CompiledKernel>, ghost base: set<string>)
      returns (outcome: Outcome, result: map<string, CompiledKernel>)
      requires Sound() && searches == [] && pendingWinners == [] && searchesInFlight == {}
      requires Finished(backend, contests, queued, refused, configOf, byKernel, base, winnerCache)
      modifies this`cacheHits, this`winnerCache, this`clock, this`picks, this`refusals, this`refused, this`configOf,
               this`contests, this`won
      ensures Sound() && Idle() && won == old(winnerCache) && outcome != NoWinner
      ensures CacheOk(backend, contests, won) && old(contests) <= contests
      ensures result.Keys <= byKernel.Keys + queued.Keys
      ensures !outcome.Done? ==> Blamed(outcome)
      ensures outcome.Done? ==>
                && Finished(backend, contests, queued, refused, configOf, result, base + HitNames(old(cacheHits)), won)
                && Balanced(old(picks), old(refusals), picks, refusals)
    {
      hide CacheOk, ContestsOk, HitNames, Finished, HitCompiled, HitsOk, Balanced, Blamed;
      won := winnerCache;
      var hits := cacheHits;
      cacheHits := [];
      ghost var started := clock;
      var kernels := CompileHits(hits);
      ContestsStay(backend, benchmark, contests, started, clock);
      outcome, result := SettleAll(hits, kernels, byKernel, base);
      IdleIsSound();
    }

    /** A search is queued exactly for the problems that still need one. */
    lemma InFlightExactly(k: string)
      requires Clean()
      ensures k in searchesInFlight <==> NewProblem(backend, queued, winnerCache, k)
    {
      hide CacheOk, Scored;
      if k in searchesInFlight {
        KeyHasSearch(searches, |searches|, k);
        var i :| 0 <= i < |searches| && searches[i].key == Some(k);
        assert searches[i].name in queued;
      }
      if NewProblem(backend, queued, winnerCache, k) {
        var n :| n in queued && backend.problemKey(queued[n]) == Some(k);
        if n in SearchNames(searches) {
          var i :| 0 <= i < |searches| && searches[i].name == n;
          KeyIsInFlight(searches, i);
        }
      }
    }

    /** Number of winner picks a successful `Finish` makes for each problem. */
    lemma PicksFollow(k: string)
      requires Clean()
      ensures SearchKeys(searches)[Some(k)] == if NewProblem(backend, queued, winnerCache, k) then 1 else 0
    {
      SearchKeyCount(searches, k);
      InFlightExactly(k);
    }

    /** Nothing is queued any more. */
    ghost method StartOver()
      requires Sound() && Idle()
      modifies this`queued
      ensures Clean() && Idle() && queued == map[]
    {
      hide CacheOk, Scored;
      queued := map[];
      EmptyQueue();
    }

    method Finish(byKernel: map<string, CompiledKernel>)
      returns (outcome: Outcome, result: map<string, CompiledKernel>)
      requires Sound()
      modifies this
      ensures Sound()
      ensures old(Clean()) ==> outcome != NoWinner
      ensures old(Stranded()) ==> !outcome.Done? && (old(searches) == [] ==> outcome == NoWinner)
      ensures !outcome.Done? ==> queued == old(queued) && (outcome == NoWinner || Blamed(outcome))
      ensures result.Keys <= byKernel.Keys + old(queued).Keys
      ensures outcome.Done? ==> Clean() && Idle() && queued == map[]
      ensures outcome.Done? && old(Clean()) ==>
                && Finished(backend, contests, old(queued), refused, configOf, result, old(queued).Keys, won)
                && CacheOk(backend, contests, won)
                && (forall k | k in old(winnerCache) :: k in won && won[k] == old(winnerCache)[k])
                && (forall k: string ::
                      picks[Some(k)] + old(refusals)[Some(k)]
                      == old(picks)[Some(k)] + refusals[Some(k)]
                         + if NewProblem(backend, old(queued), old(winnerCache), k) then 1 else 0)
      ensures (exists i :: 0 <= i < |old(searches)| && !backend.parses(old(searches)[i].text)) ==>
                && !outcome.Done? && pendingWinners == old(pendingWinners) && searches == [] && searchesInFlight == {}
                && OnlyFromReadable(old(winnerCache), old(searches))
    {
      hide Built, CacheOk, Scored, Finished, SearchNames, HitNames, PendingNames, KeysInFlight, SearchKeys, DistinctKeys,
           NewProblem, Balanced, Sound, OnlyFromReadable, Blamed;
      ghost var clean, keys := Clean(), SearchKeys(searches);
      if clean {
        forall k: string ensures keys[Some(k)] == if NewProblem(backend, queued, winnerCache, k) then 1 else 0 {
          PicksFollow(k);
        }
      }
      refused := {};
      outcome, result := CompileAndBenchmarkSearches(byKernel);
      if outcome != Done { return; }
      ghost var picked, hits := picks, HitNames(cacheHits);
      outcome, result := CompileDeferredCacheHits(result, SearchNames(old(searches)));
      if outcome != Done { return; }
      if clean {
        assert old(queued).Keys == SearchNames(old(searches)) + hits;
        PicksBalance(old(picks), old(refusals), keys, picked, picks, refusals);
      }
      StartOver();
    }

    /** The `NoWinner` branch is reachable once an earlier `Finish` failed: two kernels share a
        problem, and the module of the first cannot be read back. */
    static method FailureStrandsLaterKernels() returns (first: Outcome, second: Outcome)
      ensures first != Done && first != NoWinner && second == NoWinner
    {
      var backend := Backend(text => Some("problem"), text => ["config"], text => false, (t, text, config) => None,
                             t => false, (t, n, call) => NoTime);
      var tuner := new RocMlirAutotuner(backend, Adaptive);
      hide RocMlirAutotuner.Sound, RocMlirAutotuner.Clean, Finished, Grew, KeysInFlight, NewProblem;
      var queuedA := tuner.AutotuneKernel("module a", "a");
      var queuedB := tuner.AutotuneKernel("module b", "b");
      var byKernel;
      assert tuner.searches[0].text == "module a" && tuner.pendingWinners[0].key == "problem";
      first, byKernel := tuner.Finish(map[]);
      assert tuner.pendingWinners[0].key == "problem" && "problem" !in tuner.winnerCache;
      second, byKernel := tuner.Finish(byKernel);
    }
  }

  datatype RockKernel = RockKernel(name: string, text: string)

  /** The stamping walk: every dispatch gets the binary and geometry of its callee. */
  method StampDispatches(byKernel: map<string, CompiledKernel>, callees: seq<string>)
    returns (ok: bool, stamped: seq<CompiledKernel>)
    ensures ok <==> forall i | 0 <= i < |callees| :: callees[i] in byKernel && byKernel[callees[i]].binary != []
    ensures ok ==> |stamped| == |callees| && forall i | 0 <= i < |callees| :: stamped[i] == byKernel[callees[i]]
  {
    stamped := [];
    while |stamped| < |callees|
      invariant |stamped| <= |callees|
      invariant forall i | 0 <= i < |stamped| ::
                  callees[i] in byKernel && byKernel[callees[i]].binary != [] && stamped[i] == byKernel[callees[i]]
    {
      var callee := callees[|stamped|];
      if callee !in byKernel || byKernel[callee].binary == [] { return false, stamped; }
      stamped := stamped + [byKernel[callee]];
    }
    ok := true;
  }

  ghost predicate Names(kernels: seq<RockKernel>, name: string) {
    exists i :: 0 <= i < |kernels| && kernels[i].name == name
  }

  /** A binary of the kernel that bears this name. */
  ghost predicate OwnBinary(backend: Backend, kernels: seq<RockKernel>, name: string, kernel: CompiledKernel) {
    exists i, config :: 0 <= i < |kernels| && kernels[i].name == name && Built(backend, kernel, kernels[i].text, config)
  }

  lemma CleanIsSound(tuner: RocMlirAutotuner)
    requires tuner.Clean()
    ensures tuner.Sound()
  {
  }

  /** The kernel loop: every kernel is queued, and has an empty entry in the table. */
  method QueueKernels(tuner: RocMlirAutotuner, kernels: seq<RockKernel>)
    returns (outcome: Outcome, byKernel: map<string, CompiledKernel>)
    requires tuner.Clean() && tuner.queued == map[]
    requires forall i, j | 0 <= i < j < |kernels| :: kernels[i].name != kernels[j].name
    modifies tuner
    ensures tuner.Clean() && outcome != NoWinner
    ensures outcome.Done? ==>
              && byKernel.Keys == tuner.queued.Keys
              && (forall i | 0 <= i < |kernels| :: kernels[i].name in tuner.queued)
              && (forall n | n in tuner.queued :: exists i :: 0 <= i < |kernels| && kernels[i] == RockKernel(n, tuner.queued[n]))
  {
    hide RocMlirAutotuner.Clean, RocMlirAutotuner.Queues, RocMlirAutotuner.Scored, CacheOk;
    outcome, byKernel := Done, map[];
    var i := 0;
    while i < |kernels|
      invariant i <= |kernels| && tuner.Clean() && outcome == Done && byKernel.Keys == tuner.queued.Keys
      invariant forall j | 0 <= j < i :: kernels[j].name in tuner.queued
      invariant forall n | n in tuner.queued :: exists j :: 0 <= j < i && kernels[j] == RockKernel(n, tuner.queued[n])
    {
      CleanIsSound(tuner);
      hide RocMlirAutotuner.Sound;
      byKernel := byKernel[kernels[i].name := CompiledKernel([], 0, 0)];
      ghost var before := tuner.queued;
      outcome := tuner.AutotuneKernel(kernels[i].text, kernels[i].name);
      if outcome != Done { return; }
      assert kernels[i] == RockKernel(kernels[i].name, kernels[i].text);
      i := i + 1;
    }
  }

  lemma TableServesItsNames(backend: Backend, contests: set<Contest>, kernels: seq<RockKernel>, queued: map<string, string>,
                            refused: set<string>, configOf: map<string, string>, byKernel: map<string, CompiledKernel>,
                            winners: map<string, string>)
    requires Finished(backend, contests, queued, refused, configOf, byKernel, queued.Keys, winners) && byKernel.Keys <= queued.Keys
    requires forall i | 0 <= i < |kernels| :: kernels[i].name in queued
    requires forall n | n in queued :: exists i :: 0 <= i < |kernels| && kernels[i] == RockKernel(n, queued[n])
    ensures forall c :: Names(kernels, c) <==> c in byKernel && byKernel[c].binary != []
    ensures forall c | c in byKernel :: OwnBinary(backend, kernels, c, byKernel[c])
  {
    forall c | c in byKernel ensures byKernel[c].binary != [] && OwnBinary(backend, kernels, c, byKernel[c]) {
      var i :| 0 <= i < |kernels| && kernels[i] == RockKernel(c, queued[c]);
      assert Built(backend, byKernel[c], kernels[i].text, configOf[c]);
    }
  }

  /** `compileAndEmbedRocMlirKernels` with the autotuner installed: once the queue has been worked
      off, every dispatch is stamped with a binary of its own callee, and stamping can fail only for
      a dispatch that names no kernel. */
  method CompileAndEmbed(tuner: RocMlirAutotuner, kernels: seq<RockKernel>, callees: seq<string>)
    returns (outcome: Outcome, ok: bool, stamped: seq<CompiledKernel>)
    requires tuner.Clean() && tuner.queued == map[]
    requires forall i, j | 0 <= i < j < |kernels| :: kernels[i].name != kernels[j].name
    modifies tuner
    ensures outcome != NoWinner
    ensures ok <==> outcome == Done && forall i | 0 <= i < |callees| :: Names(kernels, callees[i])
    ensures ok ==> |stamped| == |callees| && forall i | 0 <= i < |callees| ::
                     stamped[i].binary != [] && OwnBinary(tuner.backend, kernels, callees[i], stamped[i])
  {
    hide RocMlirAutotuner.Sound, Built, NewProblem, Finished, Names, OwnBinary;
    ok, stamped := false, [];
    var byKernel;
    outcome, byKernel := QueueKernels(tuner, kernels);
    if outcome != Done { return; }
    ghost var queued := tuner.queued;
    outcome, byKernel := tuner.Finish(byKernel);
    if outcome != Done { return; }
    TableServesItsNames(tuner.backend, tuner.contests, kernels, queued, tuner.refused, tuner.configOf, byKernel, tuner.won);
    ok, stamped := StampDispatches(byKernel, callees);
  }
}

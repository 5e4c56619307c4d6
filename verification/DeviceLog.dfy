/** What happens to device memory, as a history of events, and when a history is safe.
    Nothing here refers to how the session manages its memory. */
module DeviceLog {
  datatype Event =
    | Malloc(p: nat, n: nat)   // the driver hands out a fresh allocation
    | Free(p: nat)             // the driver takes an allocation back
    | Grant(p: nat, n: nat)    // a region gets an owner in the session
    | Reclaim(p: nat)          // a region loses its owner
    | Use(p: nat, n: nat)      // a kernel that touches a region is enqueued
    | Sync                     // everything enqueued so far has finished

  /** Newest event last. */
  datatype Log = Start | Then(before: Log, e: Event)

  type Regions = map<nat, nat>

  ghost function Allocated(log: Log): Regions {
    match log
    case Start => map[]
    case Then(b, Malloc(p, n)) => Allocated(b)[p := n]
    case Then(b, Free(p)) => Allocated(b) - {p}
    case Then(b, _) => Allocated(b)
  }

  ghost function Owned(log: Log): Regions {
    match log
    case Start => map[]
    case Then(b, Grant(p, n)) => Owned(b)[p := n]
    case Then(b, Reclaim(p)) => Owned(b) - {p}
    case Then(b, _) => Owned(b)
  }

  /** Regions that enqueued, not yet finished kernels touch. */
  ghost function InFlight(log: Log): set<(nat, nat)> {
    match log
    case Start => {}
    case Then(b, Use(p, n)) => InFlight(b) + {(p, n)}
    case Then(b, Sync) => {}
    case Then(b, _) => InFlight(b)
  }

  ghost predicate Clear(p: nat, n: nat, q: nat, m: nat) {
    p + n <= q || q + m <= p
  }

  ghost predicate ClearOfAll(p: nat, n: nat, rs: Regions) {
    forall q | q in rs :: Clear(p, n, q, rs[q])
  }

  ghost predicate Idle(log: Log, p: nat, n: nat) {
    forall u | u in InFlight(log) :: Clear(p, n, u.0, u.1)
  }

  ghost predicate Inside(p: nat, n: nat, rs: Regions) {
    exists q :: q in rs && q <= p && p + n <= q + rs[q]
  }

  /** One more event after a history: nothing is given out, taken back or freed while a
      kernel may still touch it, nothing has two owners, nothing is freed under an owner. */
  ghost predicate SafeEvent(b: Log, e: Event) {
    match e
    case Malloc(p, n) => p > 0 && n > 0 && ClearOfAll(p, n, Allocated(b))
    case Free(p) =>
      p in Allocated(b) && Idle(b, p, Allocated(b)[p])
      && forall q | q in Owned(b) :: Clear(p, Allocated(b)[p], q, Owned(b)[q])
    case Grant(p, n) =>
      p > 0 && n > 0 && Inside(p, n, Allocated(b)) && ClearOfAll(p, n, Owned(b)) && Idle(b, p, n)
    case Reclaim(p) => p in Owned(b) && Idle(b, p, Owned(b)[p])
    case Use(p, n) => n > 0 && Inside(p, n, Owned(b))
    case Sync => true
  }

  ghost predicate Safe(log: Log) {
    match log
    case Start => true
    case Then(b, e) => Safe(b) && SafeEvent(b, e)
  }

  ghost predicate PairwiseClear(rs: Regions) {
    forall p, q | p in rs && q in rs && p != q :: Clear(p, rs[p], q, rs[q])
  }

  /** A safe history never lets two allocations or two owned regions overlap. */
  lemma {:induction false} RegionsStayApart(log: Log)
    requires Safe(log)
    ensures PairwiseClear(Allocated(log)) && PairwiseClear(Owned(log))
    ensures forall p | p in Allocated(log) :: p > 0 && Allocated(log)[p] > 0
    ensures forall p | p in Owned(log) :: p > 0 && Owned(log)[p] > 0
  {
    if log.Then? {
      RegionsStayApart(log.before);
    }
  }

  /** Whatever an unfinished kernel touches still has an owner. */
  lemma {:induction false} InFlightIsOwned(log: Log)
    requires Safe(log)
    ensures forall u | u in InFlight(log) :: u.1 > 0 && Inside(u.0, u.1, Owned(log))
  {
    if log.Then? {
      var b := log.before;
      InFlightIsOwned(b);
      RegionsStayApart(log);
      RegionsStayApart(b);
      forall u | u in InFlight(log) ensures u.1 > 0 && Inside(u.0, u.1, Owned(log)) {
        if u in InFlight(b) {
          var q :| q in Owned(b) && q <= u.0 && u.0 + u.1 <= q + Owned(b)[q];
          assert q in Owned(log) && Owned(log)[q] == Owned(b)[q];
        }
      }
    }
  }

  /** A region apart from every owned one is touched by no unfinished kernel. */
  lemma ClearOfOwnersIsIdle(log: Log, p: nat, n: nat)
    requires Safe(log) && n > 0 && ClearOfAll(p, n, Owned(log))
    ensures Idle(log, p, n)
  {
    InFlightIsOwned(log);
    forall u | u in InFlight(log) ensures Clear(p, n, u.0, u.1) {
      var q :| q in Owned(log) && q <= u.0 && u.0 + u.1 <= q + Owned(log)[q];
      assert Clear(p, n, q, Owned(log)[q]);
    }
  }

  lemma GrantedIsIdle(log: Log)
    requires Safe(log) && log.Then? && log.e.Grant?
    ensures Idle(log, log.e.p, log.e.n)
  {
  }

  // ---- every allocation is freed exactly once ----

  ghost function Count(log: Log, e: Event): nat {
    match log
    case Start => 0
    case Then(b, x) => Count(b, e) + if x == e then 1 else 0
  }

  ghost function Mallocs(log: Log, p: nat): nat {
    match log
    case Start => 0
    case Then(b, e) => Mallocs(b, p) + if e.Malloc? && e.p == p then 1 else 0
  }

  ghost function Grants(log: Log, p: nat): nat {
    match log
    case Start => 0
    case Then(b, e) => Grants(b, p) + if e.Grant? && e.p == p then 1 else 0
  }

  /** At every point of a safe history each address was freed as often as it was
      allocated, but for the one time it may be allocated now; likewise for owners. */
  lemma {:induction false} FreedOncePerMalloc(log: Log, p: nat)
    requires Safe(log)
    ensures Mallocs(log, p) == Count(log, Free(p)) + if p in Allocated(log) then 1 else 0
    ensures Grants(log, p) == Count(log, Reclaim(p)) + if p in Owned(log) then 1 else 0
  {
    if log.Then? {
      FreedOncePerMalloc(log.before, p);
      RegionsStayApart(log.before);
    }
  }
}

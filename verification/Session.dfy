/** One session's memory: the transient arena with its driver fallback, the pool domains of the
    main function and of Scan bodies, the constants blob, the operator scratch and the other
    named buffers, and the cleanup that hands everything back. */
module Session {
  import opened Environment
  import opened Wrappers
  import opened MachineWord
  import opened OrderedMap
  import opened Tiling
  import opened PageBitmap
  import opened TransientArena
  import opened DeviceLog
  import opened SessionMemory
  import opened SessionHolders
  import opened BufferGrowth

  /** Calls that may be refused: driver memory, a larger host array, the offset array, the device
      address of a host buffer, clearing the error flag. */
  datatype MemoryCall = Memory(bytes: nat) | HostArray(entries: nat) | Offsets | DeviceAddress | ClearFlag

  /** What a Scan body does to the session, in any order and number. */
  datatype BodyStep =
    | RequestPool(domain: int, needed: nat)
    | Grow(slot: Slot, needed: nat)
    | LoopBuffers
    | Launch(holder: Holder, offset: nat, bytes: nat)
    | NestedScan(body: seq<seq<BodyStep>>, codes: seq<int>, trips: int)

  predicate StepFits(step: BodyStep) {
    && (step.RequestPool? ==> step.needed < TWO64)
    && (step.Grow? ==> step.needed < TWO64 && !step.slot.Once())
  }

  /** The step asks for memory of this pool or buffer. */
  predicate Asks(step: BodyStep, h: Holder) {
    match step
    case RequestPool(domain, _) => domain >= 0 && h == InScan(domain)
    case Grow(slot, _) => h == InSlot(slot)
    case _ => false
  }

  ghost predicate Asked(steps: seq<BodyStep>, lost: set<Holder>) {
    forall h | h in lost :: exists s :: s in steps && Asks(s, h)
  }

  /** Every pool or buffer the steps ask for, but for the lost ones, has the room they want. */
  ghost predicate Serves(ps: PoolSet, buffers: map<Slot, Buf>, steps: seq<BodyStep>, lost: set<Holder>) {
    && ps.WellFormed()
    && forall s | s in steps ::
         && (s.RequestPool? && s.domain >= 0 && InScan(s.domain) !in lost ==>
               (if s.needed == 0 then 1 else s.needed) <= Entry(ps, s.domain).size)
         && (s.Grow? && !s.slot.Once() && InSlot(s.slot) !in lost ==> s.needed <= BufOf(buffers, s.slot).size)
  }

  /** Every domain is still there, and every pool and buffer but for the lost ones as large as it was. */
  ghost predicate NoSmaller(a: PoolSet, u: map<Slot, Buf>, b: PoolSet, v: map<Slot, Buf>, lost: set<Holder>) {
    && a.WellFormed() && b.WellFormed() && a.count <= b.count
    && (forall i: nat | InScan(i) !in lost :: Entry(a, i).size <= Entry(b, i).size)
    && forall s: Slot | !s.Once() && InSlot(s) !in lost :: BufOf(u, s).size <= BufOf(v, s).size
  }

  lemma AfterPool(a: PoolSet, b: PoolSet, buffers: map<Slot, Buf>, domain: int, needed: nat, lost: set<Holder>)
    requires a.WellFormed() && b.WellFormed() && a.count <= b.count && (domain < 0 ==> a == b)
    requires forall i: nat | i != domain :: Entry(b, i) == Entry(a, i)
    requires domain >= 0 && InScan(domain) !in lost ==>
      && domain < b.count && Entry(a, domain).size <= b.size[domain]
      && (if needed == 0 then 1 else needed) <= b.size[domain]
    ensures NoSmaller(a, buffers, b, buffers, lost) && Serves(b, buffers, [RequestPool(domain, needed)], lost)
  {
  }

  lemma AfterGrow(ps: PoolSet, u: map<Slot, Buf>, v: map<Slot, Buf>, slot: Slot, needed: nat, lost: set<Holder>)
    requires ps.WellFormed() && forall s: Slot | s != slot :: BufOf(v, s) == BufOf(u, s)
    requires InSlot(slot) !in lost ==> BufOf(u, slot).size <= BufOf(v, slot).size && needed <= BufOf(v, slot).size
    ensures NoSmaller(ps, u, ps, v, lost) && Serves(ps, v, [Grow(slot, needed)], lost)
  {
  }

  lemma AfterOther(ps: PoolSet, u: map<Slot, Buf>, v: map<Slot, Buf>, step: BodyStep)
    requires ps.WellFormed() && !step.RequestPool? && !step.Grow?
    requires forall s: Slot | !s.Once() :: BufOf(v, s) == BufOf(u, s)
    ensures NoSmaller(ps, u, ps, v, {}) && Serves(ps, v, [step], {})
  {
  }

  lemma NoSmallerTwice(a: PoolSet, u: map<Slot, Buf>, b: PoolSet, v: map<Slot, Buf>, c: PoolSet, w: map<Slot, Buf>,
                       lost: set<Holder>, more: set<Holder>)
    requires NoSmaller(a, u, b, v, lost) && NoSmaller(b, v, c, w, more)
    ensures NoSmaller(a, u, c, w, lost + more)
  {
    forall i: nat | InScan(i) !in lost + more ensures Entry(a, i).size <= Entry(c, i).size {
      assert Entry(a, i).size <= Entry(b, i).size;
    }
  }

  lemma StillServes(a: PoolSet, u: map<Slot, Buf>, b: PoolSet, v: map<Slot, Buf>, steps: seq<BodyStep>, lost: set<Holder>,
                    more: set<Holder>)
    requires NoSmaller(a, u, b, v, more) && Serves(a, u, steps, lost)
    ensures Serves(b, v, steps, lost + more)
  {
    forall s | s in steps && s.RequestPool? && s.domain >= 0 && InScan(s.domain) !in lost + more
      ensures (if s.needed == 0 then 1 else s.needed) <= Entry(b, s.domain).size
    {
      assert Entry(a, s.domain).size <= Entry(b, s.domain).size;
    }
  }

  lemma ServesOneMore(ps: PoolSet, buffers: map<Slot, Buf>, steps: seq<BodyStep>, k: nat, lost: set<Holder>, more: set<Holder>)
    requires k < |steps| && Serves(ps, buffers, steps[..k], lost + more) && Serves(ps, buffers, [steps[k]], more)
    ensures Serves(ps, buffers, steps[..k + 1], lost + more)
  {
    assert steps[k] in [steps[k]];
    forall s | s in steps[..k + 1] ensures s in steps[..k] || s in [steps[k]] {}
  }

  lemma AskedOneMore(steps: seq<BodyStep>, k: nat, lost: set<Holder>, more: set<Holder>)
    requires k < |steps| && Asked(steps[..k], lost) && Asked([steps[k]], more)
    ensures Asked(steps[..k + 1], lost + more)
  {
    forall h | h in lost + more ensures exists s :: s in steps[..k + 1] && Asks(s, h) {
      if h in lost {
        var s :| s in steps[..k] && Asks(s, h);
        assert s in steps[..k + 1];
      } else {
        var s :| s in [steps[k]] && Asks(s, h);
        assert s == steps[..k + 1][k];
      }
    }
  }

  /** Some body that ran asked for each of the lost. */
  ghost predicate AskedBy(body: seq<seq<BodyStep>>, codes: seq<int>, trips: nat, lost: set<Holder>)
    requires trips <= |body| && trips <= |codes|
  {
    forall h | h in lost :: exists i, s :: 
      0 <= i < trips && (forall k | 0 <= k < i :: codes[k] == 0) && s in body[i] && Asks(s, h)
  }

  lemma AskedByOneMore(body: seq<seq<BodyStep>>, codes: seq<int>, i: nat, lost: set<Holder>, more: set<Holder>)
    requires i < |body| && i < |codes| && forall k | 0 <= k < i :: codes[k] == 0
    requires AskedBy(body, codes, i, lost) && Asked(body[i], more)
    ensures AskedBy(body, codes, i + 1, lost + more)
  {
  }

  /** The bodies are called in order up to the first that fails, whose code is the result, or all of
      them. */
  ghost predicate InTurn(before: seq<int>, now: seq<int>, codes: seq<int>, trips: nat, rc: int)
    requires trips <= |codes|
  {
    exists n: nat :: n <= trips && now == before + Numbers(n)
      && (forall k | 0 <= k < n - 1 :: codes[k] == 0)
      && rc == (if n == 0 then 0 else codes[n - 1]) && (rc == 0 ==> n == trips)
  }

  lemma NobodyAsked(body: seq<seq<BodyStep>>, codes: seq<int>)
    ensures AskedBy(body, codes, 0, {})
  {
  }

  lemma AskedByMore(body: seq<seq<BodyStep>>, codes: seq<int>, i: nat, trips: nat, lost: set<Holder>)
    requires i <= trips <= |body| && trips <= |codes| && AskedBy(body, codes, i, lost)
    ensures AskedBy(body, codes, trips, lost)
  {
  }

  lemma ServesWidens(ps: PoolSet, buffers: map<Slot, Buf>, steps: seq<BodyStep>, lost: set<Holder>, more: set<Holder>)
    requires Serves(ps, buffers, steps, lost)
    ensures Serves(ps, buffers, steps, more + lost)
  {
  }

  /** Nothing that the parent's pools or the buffers allocated once hold was moved. */
  ghost predicate ParentKept(holding: map<Holder, nat>, owned: Regions, holding': map<Holder, nat>, owned': Regions) {
    forall h | h in holding && (h.InMain? || (h.InSlot? && h.slot.Once())) ::
      && h in holding' && holding'[h] == holding[h] && holding[h] in owned
      && holding[h] in owned' && owned'[holding[h]] == owned[holding[h]]
  }

  lemma ParentKeptTwice(h0: map<Holder, nat>, o0: Regions, h1: map<Holder, nat>, o1: Regions, h2: map<Holder, nat>, o2: Regions)
    requires ParentKept(h0, o0, h1, o1) && ParentKept(h1, o1, h2, o2)
    ensures ParentKept(h0, o0, h2, o2)
  {
  }

  /** Every holder but `h` still owns its region, unchanged. */
  ghost predicate Kept(holding: map<Holder, nat>, owned: Regions, h: Holder, owned': Regions) {
    forall k | k in holding && k != h ::
      holding[k] in owned && holding[k] in owned' && owned'[holding[k]] == owned[holding[k]]
  }

  /** Every holder but `h` is where it was, with its region unchanged. */
  ghost predicate OthersKeep(holding: map<Holder, nat>, owned: Regions, h: Holder, holding': map<Holder, nat>, owned': Regions) {
    && Kept(holding, owned, h, owned')
    && forall k: Holder | k != h :: (k in holding' <==> k in holding) && (k in holding ==> holding'[k] == holding[k])
  }

  lemma ParentKeptByOthers(h0: map<Holder, nat>, o0: Regions, h: Holder, h1: map<Holder, nat>, o1: Regions)
    requires OthersKeep(h0, o0, h, h1, o1) && (h in h0 ==> !h.InMain? && !(h.InSlot? && h.slot.Once()))
    ensures ParentKept(h0, o0, h1, o1)
  {
  }

  /** Size a named buffer grows to. */
  function NewSize(slot: Slot, size: nat, needed: nat): nat {
    if slot.HostScratch? then needed else GrowTo(size, needed)
  }

  lemma NewSizeFits(slot: Slot, size: nat, needed: nat)
    requires size < needed < TWO64
    ensures needed <= NewSize(slot, size, needed) < TWO64
    ensures size == 0 || slot.HostScratch? ==> NewSize(slot, size, needed) == needed
    ensures size > 0 && !slot.HostScratch? ==>
              || NewSize(slot, size, needed) == needed
              || (NewSize(slot, size, needed) > needed && NewSize(slot, size, needed) == (size + size / 2) % TWO64)
    ensures size > 0 && !slot.HostScratch? && size + size / 2 < TWO64 ==> NewSize(slot, size, needed) >= size + size / 2
  {
  }

  /** The named buffers in the order of the cleanup, without the constants, which go last. */
  const BUFFERS: seq<Slot> := [Workspace, QMoe, QMoeHost, QMoeAmd, QMoeAmdHost, Conv, QLpNormalization, QSigmoid, MatmulDp4a,
                               LinearAttention, GqaFp32Adapter, LoopIter, LoopCond, ErrorFlag, HostScratch]

  lemma AllBuffers()
    ensures forall s: Slot :: s in BUFFERS <==> !s.ConstantsBlob?
    ensures forall i, j | 0 <= i < j < |BUFFERS| :: BUFFERS[i] != BUFFERS[j]
  {
    forall s: Slot ensures s in BUFFERS <==> !s.ConstantsBlob? {
      match s
      case Workspace => assert BUFFERS[0] == s;
      case QMoe => assert BUFFERS[1] == s;
      case QMoeHost => assert BUFFERS[2] == s;
      case QMoeAmd => assert BUFFERS[3] == s;
      case QMoeAmdHost => assert BUFFERS[4] == s;
      case Conv => assert BUFFERS[5] == s;
      case QLpNormalization => assert BUFFERS[6] == s;
      case QSigmoid => assert BUFFERS[7] == s;
      case MatmulDp4a => assert BUFFERS[8] == s;
      case LinearAttention => assert BUFFERS[9] == s;
      case GqaFp32Adapter => assert BUFFERS[10] == s;
      case LoopIter => assert BUFFERS[11] == s;
      case LoopCond => assert BUFFERS[12] == s;
      case ErrorFlag => assert BUFFERS[13] == s;
      case HostScratch => assert BUFFERS[14] == s;
      case ConstantsBlob =>
    }
  }

  /** Nothing was refused up to `asked`; then at most one more call was made. */
  lemma OneOrNone(before: seq<Ask<MemoryCall>>, asked: seq<Ask<MemoryCall>>, now: seq<Ask<MemoryCall>>, a: Ask<MemoryCall>)
    requires before <= asked && !Refused(before, asked) && (now == asked + [a] || (now == asked && a.granted))
    ensures before <= now && (Refused(before, now) <==> !a.granted)
  {
    hide Refused;
    NoAsk(asked);
    OneAsk(asked, a);
    RefusedEither(before, asked, now);
  }

  /** A clear window of whole pages for the request. */
  ghost predicate WindowIn(bytes: nat, live: Blocks, size: nat) {
    exists w :: ClearWindow(bytes, live, w, PagesFor(size) * ALIGN)
  }

  lemma SameEntries(a: PoolSet, b: PoolSet)
    requires a.WellFormed() && b.WellFormed() && a.count <= b.count
    requires b.base[..a.count] == a.base[..a.count] && b.size[..a.count] == a.size[..a.count]
    requires forall k | a.count <= k < b.count :: b.base[k] == 0 && b.size[k] == 0
    ensures forall i: nat :: Entry(b, i) == Entry(a, i)
  {
    forall i: nat | i < a.count ensures Entry(b, i) == Entry(a, i) {
      assert b.base[..a.count][i] == a.base[..a.count][i] && b.size[..a.count][i] == a.size[..a.count][i];
    }
  }

  function DomainOf(scan: bool, i: nat): Holder {
    if scan then InScan(i) else InMain(i)
  }

  /** The fallback table lists driver allocations with their sizes, and maybe a null of no bytes.
      `early` are the allocations from before the arena. */
  ghost predicate Tracked(base: nat, direct: Regions, outside: Regions, early: set<nat>) {
    && (base == 0 ==> direct == map[]) && early <= outside.Keys
    && forall p | p in direct :: if p == 0 then direct[p] == 0 else p in outside && outside[p] == direct[p]
  }

  predicate FromDriver(h: Holder) {
    h.InSlot? && !h.slot.Scratch()
  }

  /** The buffers that come straight from the driver are in neither the arena nor the fallback table;
      driver memory that anybody else got since the arena exists is in the table. */
  ghost predicate Booked(base: nat, holding: map<Holder, nat>, outside: Regions, direct: Regions, early: set<nat>) {
    && (forall h | h in holding && FromDriver(h) :: holding[h] in outside && holding[h] !in direct)
    && forall h | base != 0 && h in holding && !FromDriver(h) ::
         holding[h] in outside && holding[h] !in early ==> holding[h] in direct
  }

  lemma BookedGrows(base: nat, holding: map<Holder, nat>, owned: Regions, outside: Regions, direct: Regions, early: set<nat>,
                    outside': Regions, direct': Regions, p: nat)
    requires HoldingOk(holding, owned) && Booked(base, holding, outside, direct, early) && p !in owned
    requires outside.Keys <= outside'.Keys <= outside.Keys + {p} && direct.Keys <= direct'.Keys <= direct.Keys + {p}
    ensures Booked(base, holding, outside', direct', early)
  {
  }

  lemma BookedDrop(base: nat, holding: map<Holder, nat>, owned: Regions, outside: Regions, direct: Regions, early: set<nat>,
                   direct': Regions, h: Holder)
    requires HoldingOk(holding, owned) && h in holding && Booked(base, holding, outside, direct, early)
    requires direct.Keys - {holding[h]} <= direct'.Keys <= direct.Keys
    ensures Booked(base, holding - {h}, outside - {holding[h]}, direct', early - {holding[h]})
  {
  }

  lemma BookedAdd(base: nat, holding: map<Holder, nat>, outside: Regions, direct: Regions, early: set<nat>, h: Holder, p: nat)
    requires Booked(base, holding, outside, direct, early)
    requires if FromDriver(h) then p in outside && p !in direct else base != 0 && p in outside ==> p in direct
    ensures Booked(base, holding[h := p], outside, direct, early)
  {
  }

  /** A new arena finds only early allocations; without an arena there is no table to be in. */
  lemma BookedAnew(base: nat, holding: map<Holder, nat>, outside: Regions, direct: Regions, early: set<nat>, base': nat)
    requires Booked(base, holding, outside, direct, early)
    ensures Booked(base', holding, outside, direct, outside.Keys) && Booked(0, holding, outside, map[], early)
  {
  }

  lemma AllKept(holding: map<Holder, nat>, owned: Regions, h: Holder)
    requires HoldingOk(holding, owned)
    ensures OthersKeep(holding, owned, h, holding, owned)
  {
  }

  lemma DroppedOthersKeep(holding: map<Holder, nat>, owned: Regions, h: Holder)
    requires HoldingOk(holding, owned) && h in holding
    ensures OthersKeep(holding, owned, h, holding - {h}, owned - {holding[h]})
  {
  }

  lemma KeptTwice(holding: map<Holder, nat>, o0: Regions, h: Holder, o1: Regions, o2: Regions)
    requires Kept(holding, o0, h, o1) && Kept(holding - {h}, o1, h, o2)
    ensures Kept(holding, o0, h, o2)
  {
    forall k | k in holding && k != h
      ensures holding[k] in o0 && holding[k] in o2 && o2[holding[k]] == o0[holding[k]]
    {
      assert k in holding - {h} && (holding - {h})[k] == holding[k];
    }
  }

  lemma OthersKeepTwice(h0: map<Holder, nat>, o0: Regions, h: Holder, h1: map<Holder, nat>, o1: Regions,
                        h2: map<Holder, nat>, o2: Regions)
    requires OthersKeep(h0, o0, h, h1, o1) && OthersKeep(h1, o1, h, h2, o2)
    ensures OthersKeep(h0, o0, h, h2, o2)
  {
  }

  lemma OthersKeepReplaced(h0: map<Holder, nat>, o0: Regions, h: Holder, h1: map<Holder, nat>, o1: Regions)
    requires Kept(h0, o0, h, o1) && h1 - {h} == h0 - {h}
    ensures OthersKeep(h0, o0, h, h1, o1)
  {
    forall k: Holder | k != h ensures (k in h1 <==> k in h0) && (k in h0 ==> h1[k] == h0[k]) {
      assert k in h1 <==> k in h1 - {h};
      assert k in h0 <==> k in h0 - {h};
      assert k in h0 ==> (h1 - {h})[k] == (h0 - {h})[k];
    }
  }

  lemma KeptByNew(holding: map<Holder, nat>, owned: Regions, h: Holder, p: nat, n: nat)
    requires HoldingOk(holding, owned) && h !in holding && p !in owned
    ensures OthersKeep(holding, owned, h, holding[h := p], owned[p := n])
  {
  }

  lemma KeptAfterDrop(holding: map<Holder, nat>, owned: Regions, h: Holder)
    requires HoldingOk(holding, owned)
    ensures h in holding ==> Kept(holding, owned, h, owned - {holding[h]})
    ensures h !in holding ==> Kept(holding, owned, h, owned)
  {
  }

  class RuntimeState {
    // the driver's table of device allocations, and the history of device memory
    var allocs: Regions
    ghost var log: Log

    // TransientArena: `base == 0` is "no arena"
    var base: nat
    var bytes: nat
    var blocks: TransientArenaAllocator
    var direct: Regions
    var live: nat
    var liveHwm: nat

    // pool domains in use, the cached Scan set, and the parent's set while a Scan runs
    var pool: PoolSet
    var scanPool: PoolSet
    var scanPoolActive: bool
    var parent: PoolSet

    // workspace, operator scratch, pinned mirrors, and the buffers allocated once
    var buffers: map<Slot, Buf>

    ghost var holding: map<Holder, nat>
    /** The driver's allocations but for the arena, and those of them from before the arena. */
    ghost var outside: Regions
    ghost var early: set<nat>
    /** What was asked of the driver and the host so far, and the trips of Scan bodies called. */
    ghost var asks: seq<Ask<MemoryCall>>
    ghost var called: seq<int>

    function MainSet(): PoolSet
      reads this`pool, this`scanPool, this`scanPoolActive, this`parent
    {
      if scanPoolActive then parent else pool
    }

    function ScanSet(): PoolSet
      reads this`pool, this`scanPool, this`scanPoolActive, this`parent
    {
      if scanPoolActive then pool else scanPool
    }

    /** `live` counts exactly the arena's used bytes plus the tracked fallback bytes. */
    ghost predicate Accounted()
      reads this`base, this`blocks, this`direct, this`live, this`liveHwm, blocks
    {
      base != 0 ==> live == blocks.used + Sum(direct) && live <= liveHwm
    }

    ghost predicate MemoryValid()
      reads this`log, this`allocs, this`base, this`bytes, this`blocks, this`direct, this`live, this`liveHwm
      reads this`outside, this`early, blocks
    {
      && blocks.Valid()
      && bytes == blocks.size
      && MemoryOk(log, allocs, base, bytes, blocks.live, outside)
      && Tracked(base, direct, outside, early)
      && Accounted()
    }

    /** What a holder change may not disturb. */
    ghost predicate HoldersValid()
      reads this`holding, this`log, this`base, this`outside, this`direct, this`early
    {
      HoldingOk(holding, Owned(log)) && Booked(base, holding, outside, direct, early)
    }

    ghost predicate Valid()
      reads this`log, this`allocs, this`base, this`bytes, this`blocks, this`direct, this`live, this`liveHwm
      reads this`outside, this`early, this`holding, this`pool, this`scanPool, this`scanPoolActive, this`parent, this`buffers
      reads blocks
    {
      && MemoryValid()
      && HoldersValid()
      && Lists(holding, MainSet(), ScanSet(), buffers, Owned(log))
    }

    constructor ()
      ensures Valid() && fresh(this.blocks)
      ensures log == Start && base == 0 && !scanPoolActive
      ensures pool == scanPool == NO_POOLS && buffers == map[] && allocs == map[] && asks == [] && called == []
    {
      allocs, log, base, bytes := map[], Start, 0, 0;
      blocks := new TransientArenaAllocator();
      direct, live, liveHwm := map[], 0, 0;
      pool, scanPool, scanPoolActive, parent := NO_POOLS, NO_POOLS, false, NO_POOLS;
      buffers, holding, outside, early, asks, called := map[], map[], map[], {}, [], [];
    }

    // ---- driver ----

    /** `hipMalloc` and `hipHostMalloc`: refuses, or returns memory apart from every other allocation;
        no bytes are a null pointer. */
    method HipMalloc(n: nat) returns (p: Option<nat>)
      modifies this`allocs, this`log, this`asks
      ensures n == 0 ==> p == Some(0)
      ensures asks == old(asks) + if n == 0 then [] else [Ask(Memory(n), p.Some?)]
      ensures n == 0 || p.None? ==> allocs == old(allocs) && log == old(log)
      ensures n > 0 && p.Some? ==>
        && p.value > 0 && ClearOfAll(p.value, n, old(allocs))
        && allocs == old(allocs)[p.value := n]
        && log == Then(old(log), Malloc(p.value, n))
    {
      if n == 0 { return Some(0); }
      var granted := *;
      asks := asks + [Ask(Memory(n), granted)];
      if !granted { return None; }
      FreshExists(allocs, n);
      var q: nat :| q > 0 && CanPlace(q, n, allocs);
      allocs := allocs[q := n];
      log := Then(log, Malloc(q, n));
      return Some(q);
    }

    /** A driver allocation that gets an owner in the session straight away. */
    method HipAlloc(n: nat) returns (p: Option<nat>)
      requires MemoryValid()
      modifies this`allocs, this`log, this`outside, this`asks
      ensures MemoryValid() && InFlight(log) == old(InFlight(log))
      ensures asks == old(asks) + if n == 0 then [] else [Ask(Memory(n), p.Some?)]
      ensures n == 0 ==> p == Some(0)
      ensures n == 0 || p.None? ==> allocs == old(allocs) && log == old(log) && outside == old(outside)
      ensures n > 0 && p.Some? ==>
        && p.value != 0 && p.value !in old(Owned(log)) && p.value !in direct
        && Owned(log) == old(Owned(log))[p.value := n] && outside == old(outside)[p.value := n]
        && Idle(log, p.value, n)
    {
      hide MemoryOk, Consistent, Tiled, Sum, Idle, TransientArenaAllocator.Valid;
      p := HipMalloc(n);
      if n > 0 && p.Some? {
        DirectGrant(log.before, old(allocs), base, bytes, blocks.live, outside, p.value, n);
        log := Then(log, Grant(p.value, n));
        outside := outside[p.value := n];
        GrantedMemoryIsIdle(log, allocs, base, bytes, blocks.live, outside);
      }
    }

    /** `hipFree` and `hipHostFree` of an allocation that is not tracked in `direct`. */
    method HipFree(p: nat)
      requires MemoryValid() && p in outside && p !in direct && p in Owned(log) && Idle(log, p, Owned(log)[p])
      modifies this`allocs, this`log, this`outside, this`early
      ensures MemoryValid() && InFlight(log) == old(InFlight(log))
      ensures Owned(log) == old(Owned(log)) - {p} && outside == old(outside) - {p} && early == old(early) - {p}
    {
      hide MemoryOk, Consistent, Tiled, Sum, Idle, TransientArenaAllocator.Valid;
      if base != 0 { DirectOutsideArena(log, allocs, base, bytes, blocks.live, outside); }
      DirectFree(log, allocs, base, bytes, blocks.live, outside, p);
      log := Then(Then(log, Reclaim(p)), DeviceLog.Free(p));
      allocs, outside, early := allocs - {p}, outside - {p}, early - {p};
    }

    /** `hipStreamSynchronize` / `hipDeviceSynchronize`, assumed to succeed. */
    method Synchronize()
      requires MemoryValid()
      modifies this`log
      ensures MemoryValid() && log == Then(old(log), Sync)
      ensures Owned(log) == old(Owned(log)) && InFlight(log) == {}
      ensures forall p, n :: Idle(log, p, n)
    {
      hide MemoryOk, Consistent;
      SyncKeepsMemory(log, allocs, base, bytes, blocks.live, outside);
      log := Then(log, Sync);
    }

    lemma HolderOwns(h: Holder)
      requires Valid() && h in holding
      ensures holding[h] in Owned(log)
    {
    }

    /** Enqueues a kernel that touches `n` bytes of the buffer a holder points at. */
    method Enqueue(h: Holder, offset: nat, n: nat)
      requires Valid() && h in holding && holding[h] in Owned(log) && n > 0 && offset + n <= Owned(log)[holding[h]]
      modifies this`log
      ensures Valid() && log == Then(old(log), Use(holding[h] + offset, n))
      ensures Owned(log) == old(Owned(log))
    {
      hide MemoryOk, HoldingOk, Lists, Consistent;
      HolderOwns(h);
      UseKeepsMemory(log, allocs, base, bytes, blocks.live, outside, holding[h], offset, n);
      log := Then(log, Use(holding[h] + offset, n));
    }

    // ---- arena ----

    lemma NothingTracked()
      ensures Sum(map[]) == 0
    {
    }

    lemma NoBlocks()
      requires MemoryOk(log, allocs, base, bytes, blocks.live, outside) && base == 0
      ensures blocks.live == map[]
    {
    }

    /** The arena's block map over its new memory. */
    method OpenArena(p: nat, size: nat)
      requires base == 0 && p > 0 && size % ALIGN == 0 && size < TWO64 && Tracked(base, direct, outside, early)
      requires MemoryOk(log, allocs, p, size, map[], outside)
      modifies this`base, this`bytes, this`live, this`liveHwm, this`early, blocks
      ensures MemoryValid() && base == p && bytes == size && blocks.live == map[] && live == 0 && early == outside.Keys
    {
      hide MemoryOk, Consistent, Tiled, Sum;
      NothingTracked();
      base, bytes, early := p, size, outside.Keys;
      blocks.Init(size);
      live, liveHwm := 0, 0;
    }

    /** `create_transient_arena`: a driver refusal leaves the session without an arena. */
    method CreateArena(size: nat)
      requires Valid() && size % ALIGN == 0 && size < TWO64
      modifies this`allocs, this`log, this`base, this`bytes, this`live, this`liveHwm, this`early, this`asks, blocks
      ensures Valid() && Owned(log) == old(Owned(log)) && InFlight(log) == old(InFlight(log))
      ensures asks == old(asks) + if old(base) != 0 || size == 0 then [] else [Ask(Memory(size), base != 0)]
      ensures old(base) != 0 || size == 0 || base == 0 ==> base == old(base) && log == old(log) && early == old(early)
      ensures old(base) == 0 && base != 0 ==> bytes == size && blocks.live == map[] && live == 0 && early == outside.Keys
    {
      hide MemoryOk, Consistent, HoldingOk, Lists, Tiled, Booked, Sum;
      if base != 0 || size == 0 { return; }
      NoBlocks();
      var p := HipMalloc(size);
      if p.None? { return; }
      NewArena(log.before, old(allocs), bytes, outside, p.value, size);
      BookedAnew(base, holding, outside, direct, early, p.value);
      OpenArena(p.value, size);
    }

    /** The driver allocation behind a session without an arena or a request the arena
        turned away; with an arena it is tracked in `direct_live`. */
    method DriverAlloc(size: nat) returns (p: Option<nat>)
      requires MemoryValid()
      modifies this`allocs, this`log, this`direct, this`live, this`liveHwm, this`outside, this`asks
      ensures MemoryValid() && InFlight(log) == old(InFlight(log))
      ensures size == 0 ==> p == Some(0)
      ensures asks == old(asks) + if size == 0 then [] else [Ask(Memory(size), p.Some?)]
      ensures size == 0 || p.None? ==> Owned(log) == old(Owned(log)) && allocs == old(allocs) && outside == old(outside)
      ensures size > 0 && p.Some? ==>
        && p.value != 0 && p.value !in old(Owned(log)) && outside == old(outside)[p.value := size]
        && Owned(log) == old(Owned(log))[p.value := size] && Idle(log, p.value, size)
      ensures direct == if base != 0 && p.Some? then old(direct)[p.value := size] else old(direct)
      ensures live == old(live) + if base != 0 && p.Some? then size else 0
      ensures liveHwm == if live > old(liveHwm) && live > old(live) then live else old(liveHwm)
    {
      hide MemoryOk, Consistent, Tiled, Sum, Idle, TransientArenaAllocator.Valid;
      p := HipAlloc(size);
      if p.Some? && base != 0 {
        if p.value !in direct { SumAdd(direct, p.value, size); } else { assert direct[p.value := size] == direct; }
        direct := direct[p.value := size];
        live := live + size;
        liveHwm := if live > liveHwm then live else liveHwm;
      }
    }

    /** The arena has a clear window of whole pages for the request. */
    ghost predicate HasWindow(size: nat)
      reads this`base, this`bytes, this`blocks, blocks
    {
      base != 0 && WindowIn(bytes, blocks.live, size)
    }

    ghost function LiveWithout(p: nat): Blocks
      reads this`base, this`bytes, this`blocks, blocks
    {
      if base != 0 && base <= p < base + bytes then blocks.live - {p - base} else blocks.live
    }

    /** The same once the block at `p`, if it is one, is free again. */
    ghost predicate RoomAfter(p: nat, size: nat)
      reads this`base, this`bytes, this`blocks, blocks
    {
      base != 0 && WindowIn(bytes, LiveWithout(p), size)
    }

    /** A block of the arena at the lowest clear window, if there is one. */
    method ArenaAlloc(size: nat) returns (p: Option<nat>, ghost n: nat)
      requires MemoryValid() && base != 0 && size < TWO64
      modifies this`log, this`live, this`liveHwm, blocks
      ensures MemoryValid() && InFlight(log) == old(InFlight(log))
      ensures p.Some? <==> old(HasWindow(size))
      ensures p.None? ==> log == old(log) && live == old(live) && liveHwm == old(liveHwm) && blocks.live == old(blocks.live)
      ensures p.Some? ==>
        && 0 < base <= p.value && n == PagesFor(size) * ALIGN >= size && ClearWindow(bytes, old(blocks.live), p.value - base, n)
        && (forall w | ClearWindow(bytes, old(blocks.live), w, n) :: p.value - base <= w)
        && blocks.live == old(blocks.live)[p.value - base := n] && live == old(live) + n
        && p.value !in old(Owned(log)) && Owned(log) == old(Owned(log))[p.value := n] && Idle(log, p.value, n)
    {
      hide MemoryOk, Consistent, Tiled, ClearWindow, PagesFor, FirstFit, Pages, Fill, Sum, Idle;
      n := size;
      var offset := blocks.Allocate(size);
      if offset.None? { return None, n; }
      RoundUpExact(size);
      ArenaGrant(log, allocs, base, bytes, old(blocks.live), outside, offset.value, PagesFor(size) * ALIGN);
      log := Then(log, Grant(base + offset.value, PagesFor(size) * ALIGN));
      var got := blocks.BlockBytes(offset.value);
      live := live + got;
      liveHwm := if live > liveHwm then live else liveHwm;
      GrantedMemoryIsIdle(log, allocs, base, bytes, blocks.live, outside);
      return Some(base + offset.value), PagesFor(size) * ALIGN;
    }

    /** Serves the request from the arena when a clear window of whole pages exists, at the
        lowest one; otherwise asks the driver and tracks the allocation. A request for no bytes
        that the driver answers is a null pointer. */
    method DeviceAlloc(size: nat) returns (p: Option<nat>, ghost n: nat)
      requires MemoryValid() && size < TWO64
      modifies this`allocs, this`log, this`direct, this`live, this`liveHwm, this`outside, this`asks, blocks
      ensures MemoryValid() && InFlight(log) == old(InFlight(log))
      ensures p == Some(0) <==> size == 0 && !old(HasWindow(size))
      ensures asks == old(asks) + if size == 0 || old(HasWindow(size)) then [] else [Ask(Memory(size), p.Some?)]
      ensures p.None? || p == Some(0) ==> Owned(log) == old(Owned(log)) && allocs == old(allocs)
      ensures p.Some? && p.value != 0 ==>
        p.value !in old(Owned(log)) && Owned(log) == old(Owned(log))[p.value := n] && Idle(log, p.value, n)
      ensures n >= size
      ensures old(HasWindow(size)) ==>
        && p.Some? && base <= p.value && n == PagesFor(size) * ALIGN && ClearWindow(bytes, old(blocks.live), p.value - base, n)
        && (forall w | ClearWindow(bytes, old(blocks.live), w, n) :: p.value - base <= w)
        && blocks.live == old(blocks.live)[p.value - base := n] && live == old(live) + n
        && allocs == old(allocs) && outside == old(outside) && direct == old(direct)
      ensures !old(HasWindow(size)) ==>
        && n == size && blocks.live == old(blocks.live)
        && outside == (if p.Some? && size > 0 then old(outside)[p.value := size] else old(outside))
        && direct == (if base != 0 && p.Some? then old(direct)[p.value := size] else old(direct))
        && live == old(live) + if base != 0 && p.Some? then size else 0
    {
      hide MemoryValid, WindowIn, ClearWindow, PagesFor, Idle;
      if base != 0 {
        p, n := ArenaAlloc(size);
        if p.Some? { return; }
      }
      p := DriverAlloc(size);
      n := size;
    }

    lemma NullIsNotOwned()
      requires MemoryValid()
      ensures 0 !in Owned(log) && 0 !in outside
    {
      RegionsStayApart(log);
    }

    lemma ArenaBlockOrNot(p: nat)
      requires MemoryValid() && base != 0 && base <= p < base + bytes
      ensures p in Owned(log) <==> p - base in blocks.live
      ensures p - base in blocks.live ==> blocks.live[p - base] <= live
      ensures p !in outside
    {
      hide MemoryOk, Consistent, Tiled, Sum, Idle;
      DirectOutsideArena(log, allocs, base, bytes, blocks.live, outside);
      ArenaBlockOwned(log, allocs, base, bytes, blocks.live, outside, p);
      UsedBelowMark(blocks.size, blocks.free, blocks.live, blocks.used, blocks.hwm);
    }

    /** Driver memory that a pool or a scratch buffer got since the arena exists is in the fallback table with
        its size; anything else they hold since then is a block of the arena. */
    lemma FallbacksTracked(h: Holder)
      requires Valid() && base != 0 && h in holding && !FromDriver(h) && holding[h] !in early
      ensures var p := holding[h];
              && p in Owned(log)
              && if p in outside then p in direct && direct[p] == outside[p] == Owned(log)[p]
                 else base <= p < base + bytes && p - base in blocks.live && blocks.live[p - base] == Owned(log)[p]
    {
      hide Lists, Consistent, Tiled, Sum, Safe;
      NullIsNotOwned();
    }

    /** The driver takes back an allocation that is not in the arena, tracked or not. */
    method FreeOutside(p: nat)
      requires MemoryValid() && p != 0 && p in Owned(log) && Idle(log, p, Owned(log)[p])
      requires base == 0 || p < base || p >= base + bytes
      modifies this`allocs, this`log, this`direct, this`live, this`outside, this`early
      ensures MemoryValid() && InFlight(log) == old(InFlight(log))
      ensures Owned(log) == old(Owned(log)) - {p} && outside == old(outside) - {p} && early == old(early) - {p}
      ensures direct == old(direct) - {p} && live == old(live) - if p in old(direct) then old(direct)[p] else 0
    {
      hide MemoryOk, Consistent, Tiled, Sum, Idle, TransientArenaAllocator.Valid;
      DirectFree(log, allocs, base, bytes, blocks.live, outside, p);
      log := Then(Then(log, Reclaim(p)), DeviceLog.Free(p));
      if base != 0 && p in direct {
        SumSplit(direct, p);
        live := live - direct[p];
        direct := direct - {p};
      }
      allocs, outside, early := allocs - {p}, outside - {p}, early - {p};
    }

    /** Gives a region back. A null pointer is ignored; an address in the arena that starts
        no live block is reported and changes nothing but for the device wait. */
    method DeviceFree(p: nat)
      requires MemoryValid()
      requires p == 0 || p in Owned(log) || (base != 0 && base <= p < base + bytes)
      requires p in Owned(log) && !(base != 0 && base <= p < base + bytes) ==> Idle(log, p, Owned(log)[p])
      modifies this`allocs, this`log, this`direct, this`live, this`outside, this`early, blocks
      ensures MemoryValid()
      ensures Owned(log) == old(Owned(log)) - {p} && outside == old(outside) - {p} && early == old(early) - {p}
      ensures blocks.live == old(LiveWithout(p))
      ensures p == 0 || (base != 0 && base <= p < base + bytes) ==>
        && direct == old(direct)
        && live == old(live) - if p - base in old(blocks.live) && p != 0 then old(blocks.live)[p - base] else 0
      ensures p != 0 && !(base != 0 && base <= p < base + bytes) ==>
        direct == old(direct) - {p} && live == old(live) - if p in old(direct) then old(direct)[p] else 0
      ensures InFlight(log) == {} || InFlight(log) == old(InFlight(log))
    {
      hide MemoryOk, Consistent, Tiled, Sum, Idle;
      NullIsNotOwned();
      if p == 0 { return; }
      if base == 0 || p < base || p >= base + bytes {
        FreeOutside(p);
        return;
      }
      Synchronize();
      var got := blocks.BlockBytes(p - base);
      ArenaBlockOrNot(p);
      live := live - got;
      var ok := blocks.Release(p - base);
      if ok {
        ArenaReclaim(log, allocs, base, bytes, old(blocks.live), outside, p - base);
        log := Then(log, Reclaim(p));
      }
      assert !ok ==> Owned(log) - {p} == Owned(log);
    }

    // ---- buffers that grow on demand ----

    lemma Dropped(h: Holder, owned0: Regions, outside0: Regions, direct0: Regions, early0: set<nat>)
      requires HoldingOk(holding, owned0) && Booked(base, holding, outside0, direct0, early0) && h in holding
      requires Owned(log) == owned0 - {holding[h]} && outside == outside0 - {holding[h]} && early == early0 - {holding[h]}
      requires direct0.Keys - {holding[h]} <= direct.Keys <= direct0.Keys
      ensures HoldingOk(holding - {h}, Owned(log)) && Booked(base, holding - {h}, outside, direct, early)
    {
      hide Booked, HoldingOk;
      DropHolder(holding, owned0, h);
      BookedDrop(base, holding, owned0, outside0, direct0, early0, direct, h);
    }

    lemma Added(h: Holder, owned0: Regions, p: nat, n: nat)
      requires HoldingOk(holding, owned0) && Booked(base, holding, outside, direct, early) && h !in holding && p !in owned0
      requires if FromDriver(h) then p in outside && p !in direct else base != 0 && p in outside ==> p in direct
      requires Owned(log) == owned0[p := n]
      ensures HoldingOk(holding[h := p], Owned(log)) && Booked(base, holding[h := p], outside, direct, early)
    {
      hide Booked, HoldingOk;
      AddHolder(holding, owned0, h, p, n);
      BookedAdd(base, holding, outside, direct, early, h, p);
    }

    lemma RegionsOfHolders(h: Holder)
      requires HoldingOk(holding, Owned(log)) && h in holding
      ensures holding[h] in Owned(log)
    {
    }

    /** Waits for the stream and gives a holder's region back, if it has one. */
    method GiveBack(ghost h: Holder, ptr: nat)
      requires MemoryValid() && HoldersValid() && !FromDriver(h)
      requires if ptr == 0 then h !in holding else h in holding && holding[h] == ptr
      modifies this`allocs, this`log, this`direct, this`live, this`outside, this`early, this`holding, blocks
      ensures MemoryValid() && HoldersValid()
      ensures holding == old(holding) - {h} && blocks.live == old(LiveWithout(ptr))
      ensures Kept(old(holding), old(Owned(log)), h, Owned(log))
    {
      hide MemoryValid, HoldingOk, Idle, Booked;
      ghost var owned0: Regions := Owned(log);
      if ptr != 0 {
        RegionsOfHolders(h);
        Synchronize();
        DeviceFree(ptr);
        Dropped(h, owned0, old(outside), old(direct), old(early));
        holding := holding - {h};
      }
      KeptAfterDrop(old(holding), owned0, h);
      assert holding == old(holding) - {h};
    }

    /** Without live arena blocks, the owned regions are the driver's allocations but for the arena. */
    lemma OutsideIsOwned()
      requires MemoryValid()
      ensures outside.Keys <= Owned(log).Keys
      ensures base == 0 ==> Owned(log) == outside == allocs
    {
      hide Consistent, Tiled, Sum, Tracked, Safe;
    }

    /** Gets a region for a holder without one. */
    method Obtain(ghost h: Holder, need: nat) returns (p: Option<nat>)
      requires MemoryValid() && HoldersValid() && 0 < need < TWO64 && !FromDriver(h) && h !in holding
      modifies this`allocs, this`log, this`direct, this`live, this`liveHwm, this`outside, this`asks, this`holding, blocks
      ensures MemoryValid() && HoldersValid()
      ensures asks == old(asks) + if old(HasWindow(need)) then [] else [Ask(Memory(need), p.Some?)]
      ensures old(HasWindow(need)) ==> p.Some?
      ensures holding == if p.Some? then old(holding)[h := p.value] else old(holding)
      ensures p.Some? ==> p.value != 0 && p.value in Owned(log) && need <= Owned(log)[p.value]
      ensures p.Some? ==> Idle(log, p.value, Owned(log)[p.value])
      ensures Kept(old(holding), old(Owned(log)), h, Owned(log))
    {
      hide MemoryValid, HoldingOk, Idle, Booked, HasWindow;
      ghost var owned0: Regions := Owned(log);
      NullIsNotOwned();
      OutsideIsOwned();
      KeptAfterDrop(holding, owned0, h);
      ghost var n;
      p, n := DeviceAlloc(need);
      BookedGrows(base, holding, owned0, old(outside), old(direct), early, outside, direct, if p.Some? then p.value else 0);
      if p.Some? {
        Added(h, owned0, p.value, n);
        holding := holding[h := p.value];
      }
    }

    /** Replaces the region a holder points at: wait for the stream, give the old region
        back if there is one, ask for the new one. Everybody else's region stays. */
    method Replace(ghost h: Holder, ptr: nat, need: nat) returns (p: Option<nat>)
      requires MemoryValid() && HoldersValid() && 0 < need < TWO64 && !FromDriver(h)
      requires if ptr == 0 then h !in holding else h in holding && holding[h] == ptr
      modifies this`allocs, this`log, this`direct, this`live, this`liveHwm, this`outside, this`early, this`asks
      modifies this`holding, blocks
      ensures MemoryValid() && HoldersValid()
      ensures asks == old(asks) + if old(RoomAfter(ptr, need)) then [] else [Ask(Memory(need), p.Some?)]
      ensures old(RoomAfter(ptr, need)) ==> p.Some?
      ensures holding == if p.Some? then old(holding)[h := p.value] else old(holding) - {h}
      ensures p.Some? ==> p.value != 0 && p.value in Owned(log) && need <= Owned(log)[p.value]
      ensures p.Some? ==> Idle(log, p.value, Owned(log)[p.value])
      ensures Kept(old(holding), old(Owned(log)), h, Owned(log))
    {
      hide MemoryValid, HoldersValid, Idle, Kept, WindowIn;
      GiveBack(h, ptr);
      ghost var holding1, owned1: Regions := holding, Owned(log);
      assert HasWindow(need) == old(RoomAfter(ptr, need));
      p := Obtain(h, need);
      KeptTwice(old(holding), old(Owned(log)), h, owned1, Owned(log));
      assert p.Some? ==> (old(holding) - {h})[h := p.value] == old(holding)[h := p.value];
    }

    lemma SlotBooked(slot: Slot)
      requires Booked(base, holding, outside, direct, early) && InSlot(slot) in holding && !slot.Scratch()
      ensures holding[InSlot(slot)] in outside && holding[InSlot(slot)] !in direct
    {
    }

    /** Memory for a buffer that comes straight from the driver and has none. */
    method ObtainPinned(slot: Slot, need: nat) returns (p: Option<nat>)
      requires MemoryValid() && HoldersValid() && 0 < need && !slot.Scratch() && InSlot(slot) !in holding
      modifies this`allocs, this`log, this`outside, this`asks, this`holding
      ensures MemoryValid() && HoldersValid() && InFlight(log) == old(InFlight(log))
      ensures asks == old(asks) + [Ask(Memory(need), p.Some?)]
      ensures p.None? ==> holding == old(holding) && log == old(log)
      ensures p.Some? ==>
        && p.value != 0 && holding == old(holding)[InSlot(slot) := p.value]
        && Owned(log) == old(Owned(log))[p.value := need] && Idle(log, p.value, need)
      ensures OthersKeep(old(holding), old(Owned(log)), InSlot(slot), holding, Owned(log))
    {
      hide MemoryValid, HoldingOk, Idle, Booked, OthersKeep;
      ghost var h, owned0: Regions := InSlot(slot), Owned(log);
      NullIsNotOwned();
      AllKept(holding, owned0, h);
      p := HipAlloc(need);
      if p.Some? {
        BookedGrows(base, holding, owned0, old(outside), direct, early, outside, direct, p.value);
        Added(h, owned0, p.value, need);
        KeptByNew(holding, owned0, h, p.value, need);
        holding := holding[h := p.value];
      }
    }

    /** `Replace` for a pinned host buffer, which comes from the driver and goes back there. */
    method ReplacePinned(slot: Slot, ptr: nat, need: nat) returns (p: Option<nat>)
      requires MemoryValid() && HoldersValid() && 0 < need && !slot.Scratch()
      requires if ptr == 0 then InSlot(slot) !in holding else InSlot(slot) in holding && holding[InSlot(slot)] == ptr
      modifies this`allocs, this`log, this`outside, this`early, this`asks, this`holding
      ensures MemoryValid() && HoldersValid()
      ensures asks == old(asks) + [Ask(Memory(need), p.Some?)]
      ensures holding == if p.Some? then old(holding)[InSlot(slot) := p.value] else old(holding) - {InSlot(slot)}
      ensures p.Some? ==> p.value != 0 && p.value in Owned(log) && need <= Owned(log)[p.value]
      ensures p.Some? ==> Idle(log, p.value, Owned(log)[p.value])
      ensures Kept(old(holding), old(Owned(log)), InSlot(slot), Owned(log))
    {
      hide MemoryValid, HoldingOk, Idle, Booked, Kept;
      ghost var h, owned0: Regions := InSlot(slot), Owned(log);
      if ptr != 0 {
        RegionsOfHolders(h);
        SlotBooked(slot);
        Synchronize();
        HipFree(ptr);
        Dropped(h, owned0, old(outside), direct, old(early));
        holding := holding - {h};
      }
      KeptAfterDrop(old(holding), owned0, h);
      assert holding == old(holding) - {h};
      ghost var owned1: Regions := Owned(log);
      p := ObtainPinned(slot, need);
      KeptTwice(old(holding), owned0, h, owned1, Owned(log));
      assert p.Some? ==> (old(holding) - {h})[h := p.value] == old(holding)[h := p.value];
    }

    method ReplaceSlot(slot: Slot, ptr: nat, need: nat) returns (p: Option<nat>)
      requires MemoryValid() && HoldersValid() && 0 < need < TWO64
      requires if ptr == 0 then InSlot(slot) !in holding else InSlot(slot) in holding && holding[InSlot(slot)] == ptr
      modifies this`allocs, this`log, this`direct, this`live, this`liveHwm, this`outside, this`early, this`asks
      modifies this`holding, blocks
      ensures MemoryValid() && HoldersValid()
      ensures asks == old(asks) + if slot.Scratch() && old(RoomAfter(ptr, need)) then [] else [Ask(Memory(need), p.Some?)]
      ensures slot.Scratch() && old(RoomAfter(ptr, need)) ==> p.Some?
      ensures holding == if p.Some? then old(holding)[InSlot(slot) := p.value] else old(holding) - {InSlot(slot)}
      ensures p.Some? ==> p.value != 0 && p.value in Owned(log) && need <= Owned(log)[p.value]
      ensures Kept(old(holding), old(Owned(log)), InSlot(slot), Owned(log))
    {
      hide MemoryValid, HoldersValid, Idle, Kept, RoomAfter;
      if slot.Scratch() {
        p := Replace(InSlot(slot), ptr, need);
      } else {
        p := ReplacePinned(slot, ptr, need);
      }
    }

    /** The holder of domain `d` of the pool set in use. */
    function PoolHolder(d: nat): Holder
      reads this`scanPoolActive
    {
      if scanPoolActive then InScan(d) else InMain(d)
    }

    lemma PoolRelisted(pool0: PoolSet)
      requires Lists(holding, if scanPoolActive then parent else pool0, if scanPoolActive then pool0 else scanPool,
                     buffers, Owned(log))
      requires pool.WellFormed() && forall i: nat :: Entry(pool, i) == Entry(pool0, i)
      ensures Lists(holding, MainSet(), ScanSet(), buffers, Owned(log))
    {
      if scanPoolActive {
        ListsByEntries(holding, parent, pool0, buffers, Owned(log), parent, pool);
      } else {
        ListsByEntries(holding, pool0, scanPool, buffers, Owned(log), pool, scanPool);
      }
    }

    /** A call whose answer is all that matters. */
    method AskFor(call: MemoryCall) returns (granted: bool)
      modifies this`asks
      ensures asks == old(asks) + [Ask(call, granted)] && old(asks) <= asks
      ensures Refused(old(asks), asks) <==> !granted
    {
      granted := *;
      OneAsk(asks, Ask(call, granted));
      asks := asks + [Ask(call, granted)];
    }

    /** Other arrays for the pool set in use, with the same entries. */
    method SetPool(ps: PoolSet)
      requires Valid() && pool.WellFormed() && ps.WellFormed() && forall i: nat :: Entry(ps, i) == Entry(pool, i)
      modifies this`pool
      ensures Valid() && pool == ps
    {
      hide MemoryValid, HoldersValid, Lists;
      ghost var pool0 := pool;
      pool := ps;
      PoolRelisted(pool0);
    }

    static method ZeroTail(base: seq<nat>, size: seq<nat>, count: nat) returns (newBase: seq<nat>, newSize: seq<nat>)
      requires count <= |base| == |size|
      ensures |newBase| == |newSize| == |base| && newBase[..count] == base[..count] && newSize[..count] == size[..count]
      ensures forall k | count <= k < |base| :: newBase[k] == 0 && newSize[k] == 0
    {
      newBase, newSize := base, size;
      var i := count;
      while i < |base|
        invariant count <= i <= |base| == |newBase| == |newSize|
        invariant newBase[..count] == base[..count] && newSize[..count] == size[..count]
        invariant forall k | count <= k < i :: newBase[k] == 0 && newSize[k] == 0
      {
        newBase, newSize := newBase[i := 0], newSize[i := 0];
        i := i + 1;
      }
    }

    /** An array grown by `realloc`: the old entries, then anything. */
    static method Realloc(a: seq<nat>, count: nat, needed: nat) returns (r: seq<nat>)
      requires count <= |a| && count <= needed
      ensures |r| == needed && r[..count] == a[..count]
    {
      var tail: seq<nat> :| |tail| == needed - count by { assert |seq(needed - count, _ => 0)| == needed - count; }
      r := a[..count] + tail;
    }

    function BufAt(h: Holder): Buf
      requires MainSet().WellFormed() && ScanSet().WellFormed()
      reads this`pool, this`scanPool, this`scanPoolActive, this`parent, this`buffers
    {
      At(MainSet(), ScanSet(), buffers, h)
    }

    /** What the session records about a holder agrees with who owns what. */
    lemma HolderPointer(h: Holder)
      requires Valid()
      ensures MainSet().WellFormed() && ScanSet().WellFormed()
      ensures h in holding <==> BufAt(h).ptr != 0
      ensures h in holding ==> holding[h] == BufAt(h).ptr && holding[h] in Owned(log) && BufAt(h).size <= Owned(log)[holding[h]]
    {
      hide MemoryValid;
    }

    /** `ensure_pool_domains`: either array growth may be refused; old entries survive. */
    method EnsurePoolDomains(needed: nat) returns (ok: bool)
      requires Valid()
      modifies this`pool, this`asks
      ensures Valid() && pool.WellFormed()
      ensures old(asks) <= asks && (ok <==> !Refused(old(asks), asks))
      ensures forall k | |old(asks)| <= k < |asks| :: asks[k].call == HostArray(needed)
      ensures needed <= old(pool.count) ==> asks == old(asks)
      ensures pool.count == if ok && needed > old(pool.count) then needed else old(pool.count)
      ensures forall i: nat :: Entry(pool, i) == Entry(old(pool), i)
      ensures needed <= old(pool.count) ==> ok && pool == old(pool)
    {
      hide Valid, Refused, Entry;
      NoAsk(asks);
      HolderPointer(PoolHolder(0));
      if needed <= pool.count { return true; }
      var granted := AskFor(HostArray(needed));
      if !granted { return false; }
      var count := pool.count;
      var newBase := Realloc(pool.base, count, needed);
      ghost var asked := asks;
      SameEntries(pool, pool.(base := newBase));
      SetPool(pool.(base := newBase));
      granted := AskFor(HostArray(needed));
      RefusedEither(old(asks), asked, asks);
      if !granted { return false; }
      var newSize := Realloc(pool.size, count, needed);
      newBase, newSize := ZeroTail(newBase, newSize, count);
      SameEntries(pool, PoolSet(needed, newBase, newSize));
      SetPool(PoolSet(needed, newBase, newSize));
      return true;
    }

    lemma PoolUpdated(pool0: PoolSet, d: nat, holding0: map<Holder, nat>, owned0: Regions)
      requires HoldingOk(holding0, owned0)
      requires Lists(holding0, if scanPoolActive then parent else pool0, if scanPoolActive then pool0 else scanPool,
                     buffers, owned0)
      requires pool.WellFormed() && d < pool.count == pool0.count
      requires forall i: nat | i != d :: Entry(pool, i) == Entry(pool0, i)
      requires OthersKeep(holding0, owned0, PoolHolder(d), holding, Owned(log))
      requires PoolHolder(d) in holding <==> pool.base[d] != 0
      requires PoolHolder(d) in holding ==>
        && holding[PoolHolder(d)] == pool.base[d]
        && (holding[PoolHolder(d)] in Owned(log) ==> pool.size[d] <= Owned(log)[holding[PoolHolder(d)]])
      ensures Lists(holding, MainSet(), ScanSet(), buffers, Owned(log))
    {
      var main0, scan0 := if scanPoolActive then parent else pool0, if scanPoolActive then pool0 else scanPool;
      ListsUpdate(holding0, main0, scan0, buffers, owned0,
                  holding, MainSet(), ScanSet(), buffers, Owned(log), PoolHolder(d));
    }

    /** The growth path of `hipdnn_ep_get_pool_base`. */
    method GrowPool(domain: nat, need: nat) returns (ok: bool)
      requires Valid() && pool.WellFormed() && domain < pool.count
      requires pool.size[domain] < need < TWO64
      modifies this`allocs, this`log, this`direct, this`live, this`liveHwm, this`outside, this`early, this`asks
      modifies this`holding, this`pool, blocks
      ensures Valid() && pool.WellFormed() && pool.count == old(pool.count)
      ensures forall i: nat | i != domain :: Entry(pool, i) == Entry(old(pool), i)
      ensures if ok then pool.base[domain] != 0 && pool.size[domain] == need
              else Entry(pool, domain) == NO_BUF
      ensures asks == old(asks) + if old(RoomAfter(pool.base[domain], need)) then [] else [Ask(Memory(need), ok)]
      ensures old(RoomAfter(pool.base[domain], need)) ==> ok
      ensures OthersKeep(old(holding), old(Owned(log)), PoolHolder(domain), holding, Owned(log))
    {
      hide MemoryValid, HoldingOk, Lists, Kept, RoomAfter;
      ghost var pool0 := pool;
      HolderPointer(PoolHolder(domain));
      var q := Replace(PoolHolder(domain), pool.base[domain], need);
      ok := q.Some?;
      if ok {
        pool := pool.(base := pool.base[domain := q.value], size := pool.size[domain := need]);
      } else {
        pool := pool.(base := pool.base[domain := 0], size := pool.size[domain := 0]);
      }
      PoolUpdated(pool0, domain, old(holding), old(Owned(log)));
    }

    /** `hipdnn_ep_get_pool_base`: a pool of domain `domain` with room for `needed` bytes.
        `refused` says that the host or the driver refused a call. */
    method GetPoolBase(domain: int, needed: nat) returns (p: nat, ghost refused: bool)
      requires Valid() && needed < TWO64
      modifies this`allocs, this`log, this`direct, this`live, this`liveHwm, this`outside, this`early, this`asks
      modifies this`holding, this`pool, blocks
      ensures Valid() && pool.WellFormed()
      ensures domain < 0 ==> p == 0 && pool == old(pool) && log == old(log) && holding == old(holding)
      ensures p != 0 ==>
        && 0 <= domain < pool.count && p == pool.base[domain]
        && (if needed == 0 then 1 else needed) <= pool.size[domain]
        && PoolHolder(domain) in holding && holding[PoolHolder(domain)] == p
        && p in Owned(log) && pool.size[domain] <= Owned(log)[p]
      ensures old(asks) <= asks && (refused <==> Refused(old(asks), asks))
      ensures p == 0 && old(pool).Backed() ==> domain < 0 || refused
      ensures refused ==> p == 0 && domain >= 0
      ensures old(pool).Backed() ==> pool.Backed()
      ensures old(pool.count) <= pool.count
      ensures forall i: nat | i != domain :: Entry(pool, i) == Entry(old(pool), i)
      ensures domain >= 0 && !refused ==>
        && domain < pool.count && Entry(old(pool), domain).size <= pool.size[domain]
        && (if needed == 0 then 1 else needed) <= pool.size[domain]
      ensures domain >= 0 && (if needed == 0 then 1 else needed) <= Entry(old(pool), domain).size ==>
        p == Entry(old(pool), domain).ptr && log == old(log) && pool == old(pool) && asks == old(asks)
      ensures domain >= 0 ==> OthersKeep(old(holding), old(Owned(log)), PoolHolder(domain), holding, Owned(log))
    {
      hide MemoryValid, HoldingOk, Lists, OthersKeep, Refused, RoomAfter;
      HolderPointer(PoolHolder(0));
      NoAsk(asks);
      if domain < 0 { return 0, false; }
      AllKept(holding, Owned(log), PoolHolder(domain));
      var ok := EnsurePoolDomains(domain + 1);
      if !ok { return 0, true; }
      var need := if needed == 0 then 1 else needed;
      if need > pool.size[domain] {
        ghost var asked := asks;
        var grown := GrowPool(domain, need);
        OneOrNone(old(asks), asked, asks, Ask(Memory(need), grown));
        if !grown { return 0, true; }
      }
      HolderPointer(PoolHolder(domain));
      return pool.base[domain], false;
    }

    /** The error path of `hipdnn_ep_pool_init`: frees domain 0 without waiting, which is
        safe because nothing was enqueued on it yet. */
    method DropFirstPool()
      requires Valid() && !scanPoolActive && pool.WellFormed() && pool.count > 0
      requires pool.base[0] in Owned(log) && Idle(log, pool.base[0], Owned(log)[pool.base[0]])
      modifies this`allocs, this`log, this`direct, this`live, this`outside, this`early, this`holding, this`pool, blocks
      ensures Valid() && pool == old(pool).(base := old(pool.base)[0 := 0])
    {
      hide MemoryValid, HoldingOk, Lists, OthersKeep, Kept, Idle, Booked;
      ghost var holding0, owned0: Regions, ptr := holding, Owned(log), pool.base[0];
      NullIsNotOwned();
      HolderPointer(InMain(0));
      DeviceFree(pool.base[0]);
      Dropped(InMain(0), owned0, old(outside), old(direct), old(early));
      holding := holding - {InMain(0)};
      DroppedOthersKeep(holding0, owned0, InMain(0));
      pool := pool.(base := pool.base[0 := 0]);
      PoolUpdated(old(pool), 0, holding0, owned0);
    }

    /** Memory for domain 0. */
    method SizeFirst(size: nat) returns (ok: bool)
      requires Valid() && !scanPoolActive && size < TWO64 && pool.WellFormed() && pool.count > 0 && pool.base[0] == 0
      modifies this`allocs, this`log, this`direct, this`live, this`liveHwm, this`outside, this`early, this`asks, this`holding
      modifies this`pool, blocks
      ensures Valid() && pool.WellFormed() && pool.count == old(pool.count)
      ensures asks == old(asks) + [Ask(Memory(size), ok)] || (asks == old(asks) && ok)
      ensures !ok ==> pool == old(pool)
      ensures ok ==> pool.size[0] == size && (pool.base[0] != 0 <==> size > 0)
      ensures ok && size > 0 ==> pool.base[0] in Owned(log) && Idle(log, pool.base[0], Owned(log)[pool.base[0]])
      ensures forall i: nat | i != 0 :: Entry(pool, i) == Entry(old(pool), i)
    {
      hide MemoryValid, HoldingOk, Lists, OthersKeep, Kept, Idle, RoomAfter, Booked;
      ghost var pool0 := pool;
      HolderPointer(InMain(0));
      AllKept(holding, Owned(log), InMain(0));
      if size > 0 {
        var q := Replace(InMain(0), 0, size);
        OthersKeepReplaced(old(holding), old(Owned(log)), InMain(0), holding, Owned(log));
        if q.None? {
          PoolUpdated(pool0, 0, old(holding), old(Owned(log)));
          return false;
        }
        pool := pool.(base := pool.base[0 := q.value]);
      } else {
        pool := pool.(base := pool.base[0 := 0]);
      }
      pool := pool.(size := pool.size[0 := size]);
      PoolUpdated(pool0, 0, old(holding), old(Owned(log)));
      ok := true;
    }

    /** `hipdnn_ep_pool_init`, which the host calls once: domain 0 sized eagerly. Only when
        the offset array cannot be allocated does the domain keep a size without memory. */
    method PoolInit(size: nat, withOffsets: bool) returns (rc: int, ghost offsetsFailed: bool)
      requires Valid() && !scanPoolActive && size < TWO64
      requires pool.WellFormed() && Entry(pool, 0).ptr == 0
      modifies this`allocs, this`log, this`direct, this`live, this`liveHwm, this`outside, this`early, this`asks
      modifies this`holding, this`pool, blocks
      ensures Valid() && pool.WellFormed()
      ensures rc == 0 ==> pool.count > 0 && pool.size[0] == size && (pool.base[0] != 0 <==> size > 0)
      ensures old(asks) <= asks && (rc == 0 <==> !Refused(old(asks), asks)) && (rc == 0 || rc == 1 || rc == 2)
      ensures rc == 2 <==> asks != old(asks) && asks[|asks| - 1] == Ask(Memory(size), false)
      ensures offsetsFailed <==> withOffsets && asks != old(asks) && asks[|asks| - 1] == Ask(Offsets, false)
      ensures offsetsFailed ==> rc == 1 && Entry(pool, 0) == Buf(0, size)
      ensures rc != 0 && !offsetsFailed ==> Entry(pool, 0) == Entry(old(pool), 0)
      ensures old(pool).Backed() ==> (pool.Backed() <==> !(offsetsFailed && size > 0))
      ensures forall i: nat | i != 0 :: Entry(pool, i) == Entry(old(pool), i)
    {
      hide MemoryValid, HoldingOk, Lists, OthersKeep, Kept, Idle, Refused, RoomAfter, Booked;
      offsetsFailed := false;
      HolderPointer(InMain(0));
      AllKept(holding, Owned(log), InMain(0));
      var ok := EnsurePoolDomains(1);
      if !ok { return 1, false; }
      ghost var asked := asks;
      ok := SizeFirst(size);
      OneOrNone(old(asks), asked, asks, Ask(Memory(size), ok));
      if !ok { return 2, false; }
      if withOffsets {
        asked := asks;
        var granted := AskFor(Offsets);
        RefusedEither(old(asks), asked, asks);
        if !granted {
          if pool.base[0] != 0 { DropFirstPool(); }
          return 1, true;
        }
      }
      return 0, false;
    }

    /** Writes down what a named buffer is now, after only its holder changed. */
    method SetSlot(slot: Slot, buf: Buf, ghost holding0: map<Holder, nat>, ghost owned0: Regions)
      requires HoldingOk(holding0, owned0) && Lists(holding0, MainSet(), ScanSet(), buffers, owned0)
      requires OthersKeep(holding0, owned0, InSlot(slot), holding, Owned(log))
      requires InSlot(slot) in holding <==> buf.ptr != 0
      requires buf.ptr != 0 ==> holding[InSlot(slot)] == buf.ptr && (buf.ptr in Owned(log) ==> buf.size <= Owned(log)[buf.ptr])
      modifies this`buffers
      ensures Lists(holding, MainSet(), ScanSet(), buffers, Owned(log))
      ensures BufOf(buffers, slot) == buf && forall s: Slot | s != slot :: BufOf(buffers, s) == BufOf(old(buffers), s)
    {
      hide HoldingOk;
      buffers := buffers[slot := buf];
      ListsUpdate(holding0, MainSet(), ScanSet(), old(buffers), owned0,
                  holding, MainSet(), ScanSet(), buffers, Owned(log), InSlot(slot));
    }

    /** A named buffer of the new size, or none when the driver refuses. */
    method GrowBuffer(slot: Slot, size: nat) returns (ok: bool)
      requires Valid() && 0 < size < TWO64
      modifies this`allocs, this`log, this`direct, this`live, this`liveHwm, this`outside, this`early, this`asks, this`holding
      modifies this`buffers, blocks
      ensures Valid() && (if ok then BufOf(buffers, slot).size == size && BufOf(buffers, slot).ptr != 0
                          else BufOf(buffers, slot) == NO_BUF)
      ensures asks == old(asks) + if slot.Scratch() && old(RoomAfter(BufOf(buffers, slot).ptr, size)) then []
                                  else [Ask(Memory(size), ok)]
      ensures slot.Scratch() && old(RoomAfter(BufOf(buffers, slot).ptr, size)) ==> ok
      ensures forall s: Slot | s != slot :: BufOf(buffers, s) == BufOf(old(buffers), s)
      ensures OthersKeep(old(holding), old(Owned(log)), InSlot(slot), holding, Owned(log))
    {
      hide MemoryValid, HoldingOk, Lists, Idle, Kept, OthersKeep, Booked, RoomAfter;
      HolderPointer(InSlot(slot));
      var q := ReplaceSlot(slot, BufOf(buffers, slot).ptr, size);
      OthersKeepReplaced(old(holding), old(Owned(log)), InSlot(slot), holding, Owned(log));
      ok := q.Some?;
      SetSlot(slot, if ok then Buf(q.value, size) else NO_BUF, old(holding), old(Owned(log)));
    }

    /** `hipdnn_ep_state_ensure_workspace` and the buffers with the same body; the pinned ones differ
        in where the memory comes from, the host scratch in growing to just the request. A
        refusal is -1 (for the workspace the process aborts there). */
    method EnsureBuffer(slot: Slot, needed: nat) returns (rc: int)
      requires Valid() && needed < TWO64 && !slot.Once()
      modifies this`allocs, this`log, this`direct, this`live, this`liveHwm, this`outside, this`early, this`asks, this`holding
      modifies this`buffers, blocks
      ensures Valid()
      ensures rc == 0 || rc == -1
      ensures rc == 0 ==> needed <= BufOf(buffers, slot).size && BufOf(old(buffers), slot).size <= BufOf(buffers, slot).size
      ensures rc == 0 && needed > BufOf(old(buffers), slot).size ==>
        var size0, size := BufOf(old(buffers), slot).size, BufOf(buffers, slot).size;
        && size == NewSize(slot, size0, needed)
        && (size0 == 0 || slot.HostScratch? ==> size == needed)
        && (size0 > 0 && !slot.HostScratch? ==> size == needed || (size > needed && size == (size0 + size0 / 2) % TWO64))
        && (size0 > 0 && !slot.HostScratch? && size0 + size0 / 2 < TWO64 ==> size >= size0 + size0 / 2)
      ensures needed <= BufOf(old(buffers), slot).size ==>
        rc == 0 && buffers == old(buffers) && log == old(log) && asks == old(asks)
      ensures rc == -1 ==> BufOf(buffers, slot) == NO_BUF
      ensures old(asks) <= asks && (rc == -1 <==> Refused(old(asks), asks))
      ensures forall s: Slot | s != slot :: BufOf(buffers, s) == BufOf(old(buffers), s)
      ensures OthersKeep(old(holding), old(Owned(log)), InSlot(slot), holding, Owned(log))
    {
      hide MemoryValid, HoldingOk, Lists, OthersKeep, Booked, NewSize, RoomAfter, Refused;
      NoAsk(asks);
      AllKept(holding, Owned(log), InSlot(slot));
      var buf := BufOf(buffers, slot);
      if needed == 0 || needed <= buf.size {
        return 0;
      }
      NewSizeFits(slot, buf.size, needed);
      var size := NewSize(slot, buf.size, needed);
      var ok := GrowBuffer(slot, size);
      OneOrNone(old(asks), old(asks), asks, Ask(Memory(size), ok));
      rc := if ok then 0 else -1;
    }

    /** A run of successful requests for one buffer: its size is the last reallocation of
        the growth model, so the bounds proved there are bounds on this buffer. */
    method EnsureAll(slot: Slot, requests: seq<nat>) returns (done: nat)
      requires Valid() && !slot.Once() && !slot.HostScratch? && BufOf(buffers, slot) == NO_BUF && forall r | r in requests :: r < TWO64
      modifies this`allocs, this`log, this`direct, this`live, this`liveHwm, this`outside, this`early, this`asks
      modifies this`holding, this`buffers, blocks
      ensures Valid() && done <= |requests|
      ensures done < |requests| ==> BufOf(buffers, slot) == NO_BUF
      ensures done == |requests| ==> BufOf(buffers, slot).size == Last(Allocs(requests))
    {
      hide MemoryValid, HoldingOk, Lists, OthersKeep, GrowTo, Booked, Refused, RoomAfter;
      done := 0;
      while done < |requests|
        invariant Valid() && 0 <= done <= |requests|
        invariant BufOf(buffers, slot).size == Last(Allocs(requests[..done]))
      {
        assert requests[..done + 1][..done] == requests[..done];
        assert requests[done] in requests;
        var rc := EnsureBuffer(slot, requests[done]);
        if rc != 0 { return; }
        done := done + 1;
      }
      assert requests[..|requests|] == requests;
    }

    // ---- buffers allocated once ----

    lemma NothingDropped(slot: Slot)
      requires HoldersValid()
      ensures HoldingOk(holding, Owned(log)) && OthersKeep(holding, Owned(log), InSlot(slot), holding, Owned(log))
    {
      AllKept(holding, Owned(log), InSlot(slot));
    }

    /** Asks the driver for a buffer that the session does not have yet. */
    method AllocOnce(slot: Slot, size: nat) returns (ok: bool)
      requires Valid() && slot.Once() && BufOf(buffers, slot).ptr == 0
      modifies this`allocs, this`log, this`outside, this`asks, this`holding, this`buffers
      ensures Valid() && InFlight(log) == old(InFlight(log))
      ensures size == 0 ==> ok
      ensures asks == old(asks) + if size == 0 then [] else [Ask(Memory(size), ok)]
      ensures ok ==> BufOf(buffers, slot).size == size && (BufOf(buffers, slot).ptr != 0 <==> size > 0)
      ensures !ok ==> buffers == old(buffers) && log == old(log)
      ensures ok && size > 0 ==> Owned(log) == old(Owned(log))[BufOf(buffers, slot).ptr := size]
      ensures ok && size > 0 ==> Idle(log, BufOf(buffers, slot).ptr, size)
      ensures forall s: Slot | s != slot :: BufOf(buffers, s) == BufOf(old(buffers), s)
      ensures OthersKeep(old(holding), old(Owned(log)), InSlot(slot), holding, Owned(log))
    {
      hide MemoryValid, HoldersValid, Lists, Idle, OthersKeep, BufOf;
      ghost var owned0: Regions := Owned(log);
      HolderPointer(InSlot(slot));
      NothingDropped(slot);
      var p := Some(0);
      if size > 0 { p := ObtainPinned(slot, size); }
      if p.None? { return false; }
      SetSlot(slot, Buf(p.value, size), old(holding), owned0);
      ok := true;
    }

    /** Gives such a buffer back at once, when nothing was enqueued on it. */
    method DropOnce(slot: Slot)
      requires Valid() && slot.Once() && InSlot(slot) in holding
      requires holding[InSlot(slot)] in Owned(log) && Idle(log, holding[InSlot(slot)], Owned(log)[holding[InSlot(slot)]])
      modifies this`allocs, this`log, this`outside, this`early, this`holding, this`buffers
      ensures Valid() && BufOf(buffers, slot) == NO_BUF && InFlight(log) == old(InFlight(log))
      ensures Owned(log) == old(Owned(log)) - {old(holding[InSlot(slot)])}
      ensures forall s: Slot | s != slot :: BufOf(buffers, s) == BufOf(old(buffers), s)
      ensures OthersKeep(old(holding), old(Owned(log)), InSlot(slot), holding, Owned(log))
    {
      hide MemoryValid, HoldingOk, Lists, Idle, Kept, Booked, OthersKeep, BufOf;
      ghost var h, owned0: Regions := InSlot(slot), Owned(log);
      HolderPointer(h);
      SlotBooked(slot);
      HipFree(BufOf(buffers, slot).ptr);
      DroppedOthersKeep(holding, owned0, h);
      Dropped(h, owned0, old(outside), direct, old(early));
      holding := holding - {h};
      SetSlot(slot, NO_BUF, old(holding), owned0);
    }

    lemma SafeNow()
      requires MemoryValid()
      ensures Safe(log) && Allocated(log) == allocs
    {
      hide Consistent, Tiled, Sum, Tracked, Safe;
    }

    /** Creation of a session: the error flag is allocated and cleared on the stream, or the
        creation fails and keeps nothing. */
    method CreateState() returns (rc: int)
      requires Valid() && log == Start && base == 0 && buffers == map[]
      modifies this`allocs, this`log, this`outside, this`early, this`asks, this`holding, this`buffers
      ensures Valid() && (rc == 0 || rc == 10 || rc == 11)
      ensures asks == old(asks) + if rc == 10 then [Ask(Memory(4), false)] else [Ask(Memory(4), true), Ask(ClearFlag, rc == 0)]
      ensures BufOf(buffers, ErrorFlag).ptr != 0 <==> rc == 0
      ensures rc != 0 ==> Safe(log) && Allocated(log) == Owned(log) == allocs == map[]
      ensures forall s: Slot | s != ErrorFlag :: BufOf(buffers, s) == NO_BUF
    {
      hide MemoryValid, HoldingOk, Lists, Idle, OthersKeep, Booked;
      OutsideIsOwned();
      var ok := AllocOnce(ErrorFlag, 4);
      if !ok {
        SafeNow();
        return 10;
      }
      HolderPointer(InSlot(ErrorFlag));
      var cleared := AskFor(ClearFlag);
      if !cleared {
        DropOnce(ErrorFlag);
        assert Owned(log) == map[];
        OutsideIsOwned();
        SafeNow();
        return 11;
      }
      Enqueue(InSlot(ErrorFlag), 0, 4);
      rc := 0;
    }

    lemma NothingMoved()
      requires Valid()
      ensures ParentKept(holding, Owned(log), holding, Owned(log))
      ensures NoSmaller(pool, buffers, pool, buffers, {}) && Asked([], {})
      ensures !scanPoolActive ==> NoSmaller(scanPool, buffers, scanPool, buffers, {})
      ensures Serves(pool, buffers, [], {})
    {
      hide MemoryValid;
    }

    method EnsureLoopIter() returns (ok: bool)
      requires Valid()
      modifies this`allocs, this`log, this`outside, this`early, this`asks, this`holding, this`buffers
      ensures Valid() && (ok <==> BufOf(buffers, LoopIter).ptr != 0)
      ensures asks == old(asks) + if BufOf(old(buffers), LoopIter).ptr != 0 then [] else [Ask(Memory(8), ok)]
      ensures forall s: Slot | s != LoopIter || BufOf(old(buffers), s).ptr != 0 :: BufOf(buffers, s) == BufOf(old(buffers), s)
      ensures ParentKept(old(holding), old(Owned(log)), holding, Owned(log))
    {
      hide MemoryValid, HoldingOk, Lists, Idle, Booked, OthersKeep, ParentKept;
      NothingMoved();
      HolderPointer(InSlot(LoopIter));
      ok := true;
      if BufOf(buffers, LoopIter).ptr == 0 {
        ok := AllocOnce(LoopIter, 8);
        ParentKeptByOthers(old(holding), old(Owned(log)), InSlot(LoopIter), holding, Owned(log));
      }
    }

    /** The condition byte is given back when the device has no address for it. */
    method EnsureLoopCond() returns (ok: bool)
      requires Valid()
      modifies this`allocs, this`log, this`outside, this`early, this`asks, this`holding, this`buffers
      ensures Valid() && (ok <==> BufOf(buffers, LoopCond).ptr != 0)
      ensures if BufOf(old(buffers), LoopCond).ptr != 0 then asks == old(asks)
              else asks == old(asks) + [Ask(Memory(1), false)] || asks == old(asks) + [Ask(Memory(1), true), Ask(DeviceAddress, ok)]
      ensures BufOf(old(buffers), LoopCond).ptr == 0 && asks == old(asks) + [Ask(Memory(1), false)] ==> !ok
      ensures old(asks) <= asks && (!ok <==> Refused(old(asks), asks))
      ensures forall s: Slot | s != LoopCond || BufOf(old(buffers), s).ptr != 0 :: BufOf(buffers, s) == BufOf(old(buffers), s)
      ensures ParentKept(old(holding), old(Owned(log)), holding, Owned(log))
    {
      hide MemoryValid, HoldingOk, Lists, Idle, Booked, OthersKeep, ParentKept;
      NothingMoved();
      HolderPointer(InSlot(LoopCond));
      ok := true;
      NoAsk(asks);
      if BufOf(buffers, LoopCond).ptr == 0 {
        ok := AllocOnce(LoopCond, 1);
        NoAsk(old(asks));
        OneOrNone(old(asks), old(asks), asks, Ask(Memory(1), ok));
        if ok {
          ghost var asked := asks;
          ok := AskFor(DeviceAddress);
          RefusedEither(old(asks), asked, asks);
          if !ok {
            ghost var holding1, owned1: Regions := holding, Owned(log);
            HolderPointer(InSlot(LoopCond));
            DropOnce(LoopCond);
            OthersKeepTwice(old(holding), old(Owned(log)), InSlot(LoopCond), holding1, owned1, holding, Owned(log));
          }
        }
        ParentKeptByOthers(old(holding), old(Owned(log)), InSlot(LoopCond), holding, Owned(log));
      }
    }

    /** The device side of the loop buffers: the iteration number and the condition byte, each
        allocated when it is missing and kept from then on. */
    method EnsureLoopDevice() returns (rc: int)
      requires Valid()
      modifies this`allocs, this`log, this`outside, this`early, this`asks, this`holding, this`buffers
      ensures Valid()
      ensures rc == if BufOf(buffers, LoopIter).ptr != 0 && BufOf(buffers, LoopCond).ptr != 0 then 0 else -1
      ensures old(asks) <= asks && (rc == -1 <==> Refused(old(asks), asks))
      ensures BufOf(old(buffers), LoopIter).ptr != 0 && BufOf(old(buffers), LoopCond).ptr != 0 ==> asks == old(asks)
      ensures forall s: Slot | (s != LoopIter && s != LoopCond) || BufOf(old(buffers), s).ptr != 0 ::
                BufOf(buffers, s) == BufOf(old(buffers), s)
      ensures ParentKept(old(holding), old(Owned(log)), holding, Owned(log))
    {
      hide MemoryValid, HoldingOk, Lists, Idle, Booked, ParentKept;
      NoAsk(asks);
      var ok := EnsureLoopIter();
      OneOrNone(old(asks), old(asks), asks, Ask(Memory(8), ok));
      if !ok { return -1; }
      ghost var holding0, owned0: Regions, asked := holding, Owned(log), asks;
      ok := EnsureLoopCond();
      RefusedEither(old(asks), asked, asks);
      ParentKeptTwice(old(holding), old(Owned(log)), holding0, owned0, holding, Owned(log));
      rc := if ok then 0 else -1;
    }

    // ---- cleanup ----

    ghost predicate Draining()
      reads this`log, this`allocs, this`base, this`bytes, this`blocks, this`direct, this`live, this`liveHwm
      reads this`outside, this`early, this`holding, blocks
    {
      MemoryValid() && HoldersValid() && InFlight(log) == {}
    }

    /** One null-checked free of the cleanup, after the stream was drained. */
    method FreeOne(h: Holder, ptr: nat)
      requires Draining() && (if ptr == 0 then h !in holding else h in holding && holding[h] == ptr)
      modifies this`allocs, this`log, this`direct, this`live, this`outside, this`early, this`holding, blocks
      ensures Draining() && holding == old(holding) - {h}
    {
      hide MemoryValid, HoldingOk, Booked;
      ghost var owned0: Regions := Owned(log);
      if ptr != 0 {
        RegionsOfHolders(h);
        if h.InSlot? && !h.slot.Scratch() {
          SlotBooked(h.slot);
          HipFree(ptr);
        } else {
          DeviceFree(ptr);
        }
        Dropped(h, owned0, old(outside), old(direct), old(early));
        holding := holding - {h};
      }
      assert old(holding) - {h} == holding;
    }

    /** Every named buffer but the constants blob. */
    method FreeBuffers()
      requires Draining()
      requires forall s: Slot :: InSlot(s) in holding <==> BufOf(buffers, s).ptr != 0
      requires forall s: Slot | InSlot(s) in holding :: holding[InSlot(s)] == BufOf(buffers, s).ptr
      modifies this`allocs, this`log, this`direct, this`live, this`outside, this`early, this`holding, blocks
      ensures Draining()
      ensures forall h: Holder :: h in holding <==> h in old(holding) && (h.InSlot? ==> h.slot.ConstantsBlob?)
      ensures forall h | h in holding :: holding[h] == old(holding)[h]
    {
      hide Draining, BUFFERS;
      AllBuffers();
      for k := 0 to |BUFFERS|
        invariant Draining()
        invariant forall h: Holder :: h in holding <==> h in old(holding) && !(h.InSlot? && h.slot in BUFFERS[..k])
        invariant forall h | h in holding :: holding[h] == old(holding)[h]
      {
        FreeOne(InSlot(BUFFERS[k]), BufOf(buffers, BUFFERS[k]).ptr);
      }
      assert BUFFERS[..|BUFFERS|] == BUFFERS;
      AllBuffers();
    }

    method FreePools(ps: PoolSet, scan: bool)
      requires Draining() && ps.WellFormed()
      requires forall i: nat :: DomainOf(scan, i) in holding <==> Entry(ps, i).ptr != 0
      requires forall i: nat | DomainOf(scan, i) in holding :: holding[DomainOf(scan, i)] == Entry(ps, i).ptr
      modifies this`allocs, this`log, this`direct, this`live, this`outside, this`early, this`holding, blocks
      ensures Draining()
      ensures forall h: Holder :: h in holding <==> h in old(holding) && !(if scan then h.InScan? else h.InMain?)
      ensures forall h | h in holding :: holding[h] == old(holding)[h]
    {
      hide Draining;
      forall h: Holder | h in holding && (if scan then h.InScan? else h.InMain?) ensures h.domain < ps.count {
        assert h == DomainOf(scan, h.domain);
      }
      for k := 0 to ps.count
        invariant Draining()
        invariant forall h: Holder :: h in holding <==>
          h in old(holding) && !(if scan then h.InScan? && h.domain < k else h.InMain? && h.domain < k)
        invariant forall h | h in holding :: holding[h] == old(holding)[h]
      {
        assert Entry(ps, k).ptr == ps.base[k];
        FreeOne(DomainOf(scan, k), ps.base[k]);
      }
    }

    /** Arena blocks belong to pools or scratch. */
    lemma BlockHolder(o: nat)
      requires MemoryOk(log, allocs, base, bytes, blocks.live, outside) && HoldersValid() && base != 0 && o in blocks.live
      ensures exists h :: h in holding && (h.InSlot? ==> h.slot.Scratch())
    {
      hide MemoryOk;
      BlockIsOwned(log, allocs, base, bytes, blocks.live, outside, o);
      var h :| h in holding && holding[h] == base + o;
    }

    lemma NoLiveBlocks()
      requires Draining() && base != 0 && forall h | h in holding :: h.InSlot? && !h.slot.Scratch()
      ensures blocks.live == map[] && 0 !in Owned(log)
    {
      hide MemoryOk, HoldingOk, Booked, Consistent, Tiled, Sum, Tracked;
      NullIsNotOwned();
      if o :| o in blocks.live { BlockHolder(o); }
    }

    /** The session forgets the arena and its tables. */
    method CloseArena()
      requires MemoryOk(log, allocs, 0, 0, map[], outside) && Tracked(base, direct, outside, early)
      modifies this`base, this`bytes, this`blocks, this`direct, this`live, this`liveHwm
      ensures MemoryValid() && base == 0 && direct == map[] && fresh(blocks)
    {
      hide MemoryOk, Sum;
      base, bytes, direct, live, liveHwm := 0, 0, map[], 0, 0;
      blocks := new TransientArenaAllocator();
    }

    /** `destroy_transient_arena`, when no block has an owner any more. */
    method DestroyArena()
      requires Draining() && forall h | h in holding :: h.InSlot? && !h.slot.Scratch()
      modifies this`allocs, this`log, this`base, this`bytes, this`blocks, this`direct, this`live, this`liveHwm
      ensures Draining() && base == 0 && (blocks == old(blocks) || fresh(blocks))
    {
      hide MemoryOk, Consistent, Tiled, HoldingOk, Sum, Booked, Tracked, TransientArenaAllocator.Valid;
      if base == 0 { return; }
      NoLiveBlocks();
      ArenaFree(log, allocs, base, bytes, blocks.live, outside);
      BookedAnew(base, holding, outside, direct, early, 0);
      log := Then(log, DeviceLog.Free(base));
      allocs := allocs - {base};
      CloseArena();
    }

    /** What is left after the pools and all other buffers are the constants. */
    method FreeHolders()
      requires Valid() && !scanPoolActive && InFlight(log) == {}
      modifies this`allocs, this`log, this`direct, this`live, this`outside, this`early, this`holding, blocks
      ensures Draining() && forall h | h in holding :: h.InSlot? && !h.slot.Scratch()
      ensures holding.Keys == if BufOf(buffers, ConstantsBlob).ptr == 0 then {} else {InSlot(ConstantsBlob)}
      ensures forall h | h in holding :: holding[h] == BufOf(buffers, ConstantsBlob).ptr
    {
      hide MemoryValid, HoldersValid, HoldingOk;
      FreeBuffers();
      FreePools(pool, false);
      FreePools(scanPool, true);
    }

    lemma NobodyHolds()
      requires HoldingOk(holding, Owned(log)) && holding == map[]
      ensures Owned(log) == map[]
    {
    }

    /** The wait at the start of the cleanup. */
    method Drain()
      requires Valid()
      modifies this`log
      ensures Valid() && InFlight(log) == {}
    {
      hide MemoryValid, HoldingOk, Booked, Lists;
      Synchronize();
    }

    lemma NothingLeft()
      requires Draining() && holding == map[] && base == 0
      ensures Safe(log) && Allocated(log) == Owned(log) == allocs == map[]
    {
      hide MemoryValid, HoldingOk, Booked;
      NobodyHolds();
      OutsideIsOwned();
      SafeNow();
    }

    method FreeEverything()
      requires Valid() && !scanPoolActive && InFlight(log) == {}
      modifies this`allocs, this`log, this`direct, this`live, this`liveHwm, this`outside, this`early, this`asks
      modifies this`holding, this`base, this`bytes
      modifies this`blocks, blocks
      ensures Safe(log) && Allocated(log) == Owned(log) == allocs == map[] && base == 0
    {
      hide Valid, Draining, Safe;
      FreeHolders();
      DestroyArena();
      FreeOne(InSlot(ConstantsBlob), BufOf(buffers, ConstantsBlob).ptr);
      assert holding == map[];
      NothingLeft();
    }

    /** `hipdnn_ep_state_cleanup`: everything the session ever got from the driver goes
        back, the arena when no block of it has an owner any more, the constants last. */
    method Cleanup()
      requires Valid() && !scanPoolActive
      modifies this, blocks
      ensures Safe(log) && Allocated(log) == Owned(log) == map[] && allocs == map[]
      ensures base == 0 && pool == scanPool == NO_POOLS && buffers == map[]
    {
      hide Valid, Safe;
      Drain();
      FreeEverything();
      pool, scanPool, buffers := NO_POOLS, NO_POOLS, map[];
    }

    // ---- kernels ----

    ghost predicate CanLaunch(h: Holder, offset: nat, n: nat)
      reads this`pool, this`scanPool, this`scanPoolActive, this`parent, this`buffers, this`holding
    {
      && MainSet().WellFormed() && ScanSet().WellFormed() && h in holding
      && BufAt(h).ptr != 0 && n > 0 && offset + n <= BufAt(h).size
    }

    /** A kernel over part of a buffer, as large as the session believes it to be. */
    method Launches(h: Holder, offset: nat, n: nat)
      requires Valid()
      modifies this`log
      ensures Valid() && Owned(log) == old(Owned(log))
      ensures log == if old(CanLaunch(h, offset, n)) then Then(old(log), Use(holding[h] + offset, n)) else old(log)
    {
      hide MemoryValid, HoldingOk, Lists, Booked;
      HolderPointer(h);
      var buf := BufAt(h);
      if buf.ptr != 0 && n > 0 && offset + n <= buf.size {
        Enqueue(h, offset, n);
      }
    }

    // ---- Scan ----

    /** One thing a running Scan body does; `lost` is what the driver or the host refused. */
    method RunStep(step: BodyStep) returns (ghost lost: set<Holder>)
      requires Valid() && scanPoolActive && pool.WellFormed() && StepFits(step)
      modifies this`allocs, this`log, this`direct, this`live, this`liveHwm, this`outside, this`early, this`asks, this`holding
      modifies this`pool, this`scanPool, this`scanPoolActive, this`parent, this`buffers, this`called, blocks
      ensures Valid() && pool.WellFormed() && scanPoolActive && parent == old(parent)
      ensures ParentKept(old(holding), old(Owned(log)), holding, Owned(log)) && Asked([step], lost)
      ensures NoSmaller(old(pool), old(buffers), pool, buffers, lost) && Serves(pool, buffers, [step], lost)
      ensures old(pool).Backed() ==> pool.Backed()
      ensures called == old(called) && old(asks) <= asks && (!Refused(old(asks), asks) ==> lost == {})
      ensures step.Launch? ==> log == if old(CanLaunch(step.holder, step.offset, step.bytes))
                                      then Then(old(log), Use(old(holding)[step.holder] + step.offset, step.bytes)) else old(log)
      decreases 0, 2, 0
    {
      hide Valid, OthersKeep, ParentKept, Refused, CanLaunch, NoSmaller, Serves;
      lost := {};
      NothingMoved();
      HolderPointer(InScan(0));
      NoAsk(asks);
      assert step in [step];
      match step
      case RequestPool(domain, needed) =>
        ghost var refused;
        var p;
        p, refused := GetPoolBase(domain, needed);
        if refused { lost := {InScan(domain)}; }
        AfterPool(old(pool), pool, buffers, domain, needed, lost);
        if domain >= 0 { ParentKeptByOthers(old(holding), old(Owned(log)), InScan(domain), holding, Owned(log)); }
      case Grow(slot, needed) =>
        var rc := EnsureBuffer(slot, needed);
        if rc != 0 { lost := {InSlot(slot)}; }
        AfterGrow(pool, old(buffers), buffers, slot, needed, lost);
        ParentKeptByOthers(old(holding), old(Owned(log)), InSlot(slot), holding, Owned(log));
      case LoopBuffers =>
        var rc := EnsureLoopDevice();
        AfterOther(pool, old(buffers), buffers, step);
      case Launch(holder, offset, n) =>
        Launches(holder, offset, n);
        AfterOther(pool, old(buffers), buffers, step);
      case NestedScan(body, codes, trips) =>
        var rc;
        rc, lost := RunScan(body, codes, trips);
        AfterOther(pool, old(buffers), buffers, step);
    }

    /** One call of the body function: its steps in order. */
    method RunBody(steps: seq<BodyStep>, trip: int) returns (ghost lost: set<Holder>)
      requires Valid() && scanPoolActive && pool.WellFormed() && forall s | s in steps :: StepFits(s)
      modifies this`allocs, this`log, this`direct, this`live, this`liveHwm, this`outside, this`early, this`asks, this`holding
      modifies this`pool, this`scanPool, this`scanPoolActive, this`parent, this`buffers, this`called, blocks
      ensures Valid() && pool.WellFormed() && scanPoolActive && parent == old(parent)
      ensures ParentKept(old(holding), old(Owned(log)), holding, Owned(log)) && Asked(steps, lost)
      ensures NoSmaller(old(pool), old(buffers), pool, buffers, lost) && Serves(pool, buffers, steps, lost)
      ensures old(pool).Backed() ==> pool.Backed()
      ensures called == old(called) + [trip] && old(asks) <= asks && (!Refused(old(asks), asks) ==> lost == {})
      decreases 0, 3, |steps|
    {
      hide Valid, ParentKept, Serves, NoSmaller, Asked, PoolSet.Backed, Refused, CanLaunch;
      lost := {};
      called := called + [trip];
      NoAsk(asks);
      NothingMoved();
      assert steps[..0] == [];
      for k := 0 to |steps|
        invariant Valid() && pool.WellFormed() && scanPoolActive && parent == old(parent)
        invariant ParentKept(old(holding), old(Owned(log)), holding, Owned(log)) && Asked(steps[..k], lost)
        invariant NoSmaller(old(pool), old(buffers), pool, buffers, lost) && Serves(pool, buffers, steps[..k], lost)
        invariant old(pool).Backed() ==> pool.Backed()
        invariant called == old(called) + [trip] && old(asks) <= asks && (!Refused(old(asks), asks) ==> lost == {})
      {
        ghost var asked := asks;
        ghost var holding0, owned0: Regions, pool0, buffers0 := holding, Owned(log), pool, buffers;
        ghost var more := RunStep(steps[k]);
        ParentKeptTwice(old(holding), old(Owned(log)), holding0, owned0, holding, Owned(log));
        NoSmallerTwice(old(pool), old(buffers), pool0, buffers0, pool, buffers, lost, more);
        StillServes(pool0, buffers0, pool, buffers, steps[..k], lost, more);
        ServesOneMore(pool, buffers, steps, k, lost, more);
        AskedOneMore(steps, k, lost, more);
        RefusedEither(old(asks), asked, asks);
        lost := lost + more;
      }
      assert steps[..|steps|] == steps;
    }

    /** The iteration loop of the Scan driver: stops at the first body that fails. */
    method RunBodies(body: seq<seq<BodyStep>>, codes: seq<int>, trips: nat) returns (rc: int, ghost lost: set<Holder>)
      requires Valid() && scanPoolActive && pool.WellFormed() && trips <= |body| && trips <= |codes|
      requires forall steps, s | steps in body && s in steps :: StepFits(s)
      modifies this`allocs, this`log, this`direct, this`live, this`liveHwm, this`outside, this`early, this`asks, this`holding
      modifies this`pool, this`scanPool, this`scanPoolActive, this`parent, this`buffers, this`called, blocks
      ensures Valid() && pool.WellFormed() && scanPoolActive && parent == old(parent)
      ensures InTurn(old(called), called, codes, trips, rc)
      ensures old(asks) <= asks && (!Refused(old(asks), asks) ==> lost == {})
      ensures ParentKept(old(holding), old(Owned(log)), holding, Owned(log)) && AskedBy(body, codes, trips, lost)
      ensures NoSmaller(old(pool), old(buffers), pool, buffers, lost) && (old(pool).Backed() ==> pool.Backed())
      ensures forall i | 0 <= i < trips && (forall k | 0 <= k < i :: codes[k] == 0) :: Serves(pool, buffers, body[i], lost)
      decreases 0, 4, 0
    {
      hide Valid, ParentKept, Serves, NoSmaller, Asked, AskedBy, PoolSet.Backed, Refused;
      lost := {};
      NothingMoved();
      NobodyAsked(body, codes);
      NoAsk(asks);
      rc := 0;
      var i := 0;
      while i < trips
        invariant 0 <= i <= trips && scanPoolActive && parent == old(parent)
        invariant rc == 0 && forall k | 0 <= k < i :: codes[k] == 0
        invariant called == old(called) + Numbers(i) && old(asks) <= asks && (!Refused(old(asks), asks) ==> lost == {})
        invariant Valid() && pool.WellFormed()
        invariant ParentKept(old(holding), old(Owned(log)), holding, Owned(log)) && AskedBy(body, codes, i, lost)
        invariant NoSmaller(old(pool), old(buffers), pool, buffers, lost) && (old(pool).Backed() ==> pool.Backed())
        invariant forall k | 0 <= k < i :: Serves(pool, buffers, body[k], lost)
      {
        ghost var holding0, owned0: Regions, pool0, buffers0 := holding, Owned(log), pool, buffers;
        ghost var asked := asks;
        ghost var more := RunBody(body[i], i);
        RefusedEither(old(asks), asked, asks);
        ParentKeptTwice(old(holding), old(Owned(log)), holding0, owned0, holding, Owned(log));
        NoSmallerTwice(old(pool), old(buffers), pool0, buffers0, pool, buffers, lost, more);
        forall k | 0 <= k < i ensures Serves(pool, buffers, body[k], lost + more) {
          StillServes(pool0, buffers0, pool, buffers, body[k], lost, more);
        }
        ServesWidens(pool, buffers, body[i], more, lost);
        AskedByOneMore(body, codes, i, lost, more);
        lost := lost + more;
        assert Numbers(i + 1) == Numbers(i) + [i];
        i := i + 1;
        if codes[i - 1] != 0 {
          rc := codes[i - 1];
          break;
        }
      }
      AskedByMore(body, codes, i, trips, lost);
    }

    /** `hipdnn_ep_run_scan`. A Scan inside a Scan, or a negative trip count, fails and
        changes nothing. Otherwise the bodies run on their own pool set, and whatever they
        ask for and return, the parent gets its set back as it was. The Scan set and the buffers
        keep what any body grew, but for those whose growth was refused, and only those. */
    method RunScan(body: seq<seq<BodyStep>>, codes: seq<int>, trips: int) returns (rc: int, ghost lost: set<Holder>)
      requires Valid() && (!scanPoolActive && trips > 0 ==> trips <= |body| && trips <= |codes|)
      requires !scanPoolActive ==> forall steps, s | steps in body && s in steps :: StepFits(s)
      modifies this`allocs, this`log, this`direct, this`live, this`liveHwm, this`outside, this`early, this`asks, this`holding
      modifies this`pool, this`scanPool, this`scanPoolActive, this`parent, this`buffers, this`called, blocks
      ensures Valid() && scanPoolActive == old(scanPoolActive) && pool == old(pool)
      ensures old(scanPoolActive) || trips < 0 ==>
        && rc == -1 && scanPool == old(scanPool) && parent == old(parent) && buffers == old(buffers)
        && log == old(log) && holding == old(holding) && allocs == old(allocs) && lost == {}
      ensures ParentKept(old(holding), old(Owned(log)), holding, Owned(log))
      ensures !old(scanPoolActive) ==>
        && NoSmaller(old(scanPool), old(buffers), scanPool, buffers, lost)
        && (old(scanPool).Backed() ==> scanPool.Backed())
      ensures !old(scanPoolActive) && trips > 0 ==>
        && AskedBy(body, codes, trips, lost)
        && InTurn(old(called), called, codes, trips, rc)
        && (rc == 0 <==> forall i | 0 <= i < trips :: codes[i] == 0)
        && (rc != 0 ==> exists i :: 0 <= i < trips && rc == codes[i] && forall k | 0 <= k < i :: codes[k] == 0)
        && forall i | 0 <= i < trips && (forall k | 0 <= k < i :: codes[k] == 0) :: Serves(scanPool, buffers, body[i], lost)
      ensures !old(scanPoolActive) && trips == 0 ==> rc == 0 && lost == {} && log == old(log)
      ensures old(scanPoolActive) || trips <= 0 ==> called == old(called) && asks == old(asks)
      ensures old(asks) <= asks && (!Refused(old(asks), asks) ==> lost == {})
      decreases if scanPoolActive then 0 else 1, 1, 0
    {
      hide MemoryValid, HoldingOk, Lists, Idle, ParentKept, Serves, NoSmaller, AskedBy, Booked, PoolSet.Backed, Refused;
      NothingMoved();
      if trips < 0 || scanPoolActive { return -1, {}; }
      HolderPointer(InScan(0));
      parent, pool, scanPoolActive := pool, scanPool, true;
      rc, lost := 0, {};
      if trips > 0 { rc, lost := RunBodies(body, codes, trips); }
      scanPool, pool, scanPoolActive := pool, parent, false;
    }

    /** At every moment, also while a Scan runs, no pool of the Scan set overlaps a pool of
        the main function, and a pool never claims more than its region. */
    lemma ScanPoolsApartFromMain(i: nat, j: nat)
      requires Valid() && InMain(i) in holding && InScan(j) in holding
      ensures MainSet().WellFormed() && ScanSet().WellFormed()
      ensures Clear(Entry(MainSet(), i).ptr, Entry(MainSet(), i).size, Entry(ScanSet(), j).ptr, Entry(ScanSet(), j).size)
    {
      HolderPointer(InMain(i));
      HolderPointer(InScan(j));
      hide Lists, Consistent;
      HoldersApart(log, holding, InMain(i), InScan(j));
    }
  }

  /** What the host and the compiled function do with a session between its creation and
      its cleanup. */
  datatype SessionOp =
    | Pool(domain: int, needed: nat)
    | Ensure(slot: Slot, needed: nat)
    | EnsureLoop
    | Scan(body: seq<seq<BodyStep>>, codes: seq<int>, trips: int)
    | Kernel(holder: Holder, offset: nat, bytes: nat)
    | StreamSync

  predicate OpFits(op: SessionOp) {
    match op
    case Pool(_, needed) => needed < TWO64
    case Ensure(slot, needed) => needed < TWO64 && !slot.Once()
    case Scan(body, codes, trips) =>
      && (trips > 0 ==> trips <= |body| && trips <= |codes|)
      && forall steps, s | steps in body && s in steps :: StepFits(s)
    case _ => true
  }

  method RunOp(s: RuntimeState, op: SessionOp)
    requires s.Valid() && !s.scanPoolActive && OpFits(op)
    modifies s, s.blocks
    ensures s.Valid() && !s.scanPoolActive && s.blocks == old(s.blocks)
    ensures old(s.asks) <= s.asks
    ensures !Refused(old(s.asks), s.asks) ==>
              match op
              case Pool(domain, needed) => domain >= 0 ==>
                && s.pool.WellFormed() && (if needed == 0 then 1 else needed) <= Entry(s.pool, domain).size
              case Ensure(slot, needed) => needed <= BufOf(s.buffers, slot).size
              case EnsureLoop => BufOf(s.buffers, LoopIter).ptr != 0 && BufOf(s.buffers, LoopCond).ptr != 0
              case Scan(body, codes, trips) => trips > 0 ==>
                && (exists rc :: InTurn(old(s.called), s.called, codes, trips, rc)) && Serves(s.scanPool, s.buffers, body[0], {})
              case _ => true
    ensures op.StreamSync? ==> InFlight(s.log) == {}
    ensures op.Kernel? ==> s.log == if old(s.CanLaunch(op.holder, op.offset, op.bytes))
                                    then Then(old(s.log), Use(old(s.holding)[op.holder] + op.offset, op.bytes)) else old(s.log)
  {
    hide RuntimeState.MemoryValid, HoldingOk, Lists, Idle, Safe, ParentKept, OthersKeep, Kept, NoSmaller, AskedBy, Serves,
         Booked, PoolSet.Backed, Refused, InTurn;
    NoAsk(s.asks);
    match op
    case Pool(domain, needed) =>
      var p, _ := s.GetPoolBase(domain, needed);
    case Ensure(slot, needed) =>
      var rc := s.EnsureBuffer(slot, needed);
    case EnsureLoop =>
      var rc := s.EnsureLoopDevice();
    case Scan(body, codes, trips) =>
      var rc, _ := s.RunScan(body, codes, trips);
    case Kernel(holder, offset, n) =>
      s.Launches(holder, offset, n);
    case StreamSync =>
      s.Synchronize();
  }

  /** One whole life of a session: the error flag, the constants if the model has any, an arena or
      none, an eager pool or none, any operations in any order with any refusals by the driver,
      kernels in flight at any time, cleanup. Its history is safe, and everything handed out came
      back exactly once, also when the session could not be created. */
  method Lifetime(constants: Option<nat>, arenaBytes: nat, poolBytes: nat, withOffsets: bool, ops: seq<SessionOp>)
    returns (created: bool, s: RuntimeState)
    requires arenaBytes % ALIGN == 0 && arenaBytes < TWO64 && poolBytes < TWO64
    requires forall op | op in ops :: OpFits(op)
    ensures fresh(s) && Safe(s.log) && s.allocs == map[]
    ensures forall p :: Mallocs(s.log, p) == Count(s.log, DeviceLog.Free(p))
    ensures forall p :: Grants(s.log, p) == Count(s.log, Reclaim(p))
  {
    hide RuntimeState.Valid, Idle, Safe, OthersKeep;
    s := new RuntimeState();
    var rc := s.CreateState();
    created := rc == 0;
    if created && constants.Some? {
      created := s.AllocOnce(ConstantsBlob, constants.value);
      if created { created := *; }
    }
    if created {
      s.CreateArena(arenaBytes);
      var _, _ := s.PoolInit(poolBytes, withOffsets);
      for k := 0 to |ops|
        invariant fresh(s) && fresh(s.blocks) && s.Valid() && !s.scanPoolActive
      {
        assert OpFits(ops[k]);
        RunOp(s, ops[k]);
      }
    }
    if rc == 0 { s.Cleanup(); }
    forall p
      ensures Mallocs(s.log, p) == Count(s.log, DeviceLog.Free(p))
      ensures Grants(s.log, p) == Count(s.log, Reclaim(p))
    {
      FreedOncePerMalloc(s.log, p);
    }
  }
}

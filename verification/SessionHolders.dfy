/** Who may point at a session-owned region: a pool domain of the main function, a pool domain of
    the Scan bodies, or one of the session's named buffers. */
module SessionHolders {
  import opened DeviceLog

  datatype Buf = Buf(ptr: nat, size: nat)

  const NO_BUF := Buf(0, 0)

  function Entry(ps: PoolSet, i: nat): Buf
    requires ps.WellFormed()
  {
    if i < ps.count then Buf(ps.base[i], ps.size[i]) else NO_BUF
  }

  /** `num_pool_domains`, `pool_base`, `pool_size`; a null pointer is 0. The arrays may be
      longer than `count` after a failed growth. */
  datatype PoolSet = PoolSet(count: nat, base: seq<nat>, size: seq<nat>) {
    predicate WellFormed() {
      count <= |base| && count <= |size|
    }

    /** A domain that claims a size has memory behind it. */
    ghost predicate Backed() {
      WellFormed() && forall i: nat :: Entry(this, i).ptr == 0 ==> Entry(this, i).size == 0
    }
  }

  const NO_POOLS := PoolSet(0, [], [])

  /** The named buffers: operator scratch, pinned host mirrors, and those allocated once. */
  datatype Slot = Workspace | QMoe | QMoeAmd | Conv | QLpNormalization | QSigmoid
                | MatmulDp4a | LinearAttention | GqaFp32Adapter
                | QMoeHost | QMoeAmdHost | HostScratch
                | ErrorFlag | ConstantsBlob | LoopIter | LoopCond {
    predicate Pinned() {
      QMoeHost? || QMoeAmdHost? || HostScratch?
    }

    predicate Once() {
      ErrorFlag? || ConstantsBlob? || LoopIter? || LoopCond?
    }

    predicate Scratch() {
      !Pinned() && !Once()
    }
  }

  datatype Holder = InMain(domain: nat) | InScan(domain: nat) | InSlot(slot: Slot)

  function BufOf(buffers: map<Slot, Buf>, s: Slot): Buf {
    if s in buffers then buffers[s] else NO_BUF
  }

  function At(main: PoolSet, scan: PoolSet, buffers: map<Slot, Buf>, h: Holder): Buf
    requires main.WellFormed() && scan.WellFormed()
  {
    match h
    case InMain(i) => Entry(main, i)
    case InScan(i) => Entry(scan, i)
    case InSlot(s) => BufOf(buffers, s)
  }

  /** `holding` lists the non-null pointers; no two holders share one, every owned region
      has a holder, and a holder never believes its region larger than it is. */
  ghost predicate HoldingOk(holding: map<Holder, nat>, owned: Regions) {
    && (forall h | h in holding :: holding[h] in owned)
    && (forall h, k | h in holding && k in holding && holding[h] == holding[k] :: h == k)
    && (forall p | p in owned :: exists h :: h in holding && holding[h] == p)
  }

  ghost predicate Lists(holding: map<Holder, nat>, main: PoolSet, scan: PoolSet, buffers: map<Slot, Buf>, owned: Regions) {
    && main.WellFormed() && scan.WellFormed()
    && (forall h: Holder :: h in holding <==> At(main, scan, buffers, h).ptr != 0)
    && (forall h | h in holding ::
          && holding[h] == At(main, scan, buffers, h).ptr
          && (holding[h] in owned ==> At(main, scan, buffers, h).size <= owned[holding[h]]))
  }

  lemma DropHolder(holding: map<Holder, nat>, owned: Regions, h: Holder)
    requires HoldingOk(holding, owned) && h in holding
    ensures HoldingOk(holding - {h}, owned - {holding[h]})
  {
    var holding', owned' := holding - {h}, owned - {holding[h]};
    forall p | p in owned' ensures exists k :: k in holding' && holding'[k] == p {
      var k :| k in holding && holding[k] == p;
      assert k in holding' && holding'[k] == p;
    }
  }

  lemma AddHolder(holding: map<Holder, nat>, owned: Regions, h: Holder, p: nat, n: nat)
    requires HoldingOk(holding, owned) && h !in holding && p !in owned
    ensures HoldingOk(holding[h := p], owned[p := n])
  {
    var holding', owned' := holding[h := p], owned[p := n];
    forall q | q in owned' ensures exists k :: k in holding' && holding'[k] == q {
      if q == p {
        assert h in holding';
      } else {
        var k :| k in holding && holding[k] == q;
        assert k in holding' && holding'[k] == q;
      }
    }
  }

  /** Only the entries matter, not how long the arrays are. */
  lemma ListsByEntries(holding: map<Holder, nat>, main: PoolSet, scan: PoolSet, buffers: map<Slot, Buf>, owned: Regions,
                       main': PoolSet, scan': PoolSet)
    requires Lists(holding, main, scan, buffers, owned)
    requires main'.WellFormed() && scan'.WellFormed()
    requires forall i: nat :: Entry(main', i) == Entry(main, i) && Entry(scan', i) == Entry(scan, i)
    ensures Lists(holding, main', scan', buffers, owned)
  {
    forall h: Holder ensures At(main', scan', buffers, h) == At(main, scan, buffers, h) {}
  }

  /** One holder got another region (or none) and wrote down its size. */
  lemma ListsUpdate(holding: map<Holder, nat>, main: PoolSet, scan: PoolSet, buffers: map<Slot, Buf>, owned: Regions,
                    holding': map<Holder, nat>, main': PoolSet, scan': PoolSet, buffers': map<Slot, Buf>, owned': Regions,
                    h: Holder)
    requires Lists(holding, main, scan, buffers, owned) && HoldingOk(holding, owned)
    requires main'.WellFormed() && scan'.WellFormed()
    requires forall k: Holder | k != h ::
      && At(main', scan', buffers', k) == At(main, scan, buffers, k)
      && (k in holding' <==> k in holding)
      && (k in holding ==> holding'[k] == holding[k] && holding[k] in owned' && owned'[holding[k]] == owned[holding[k]])
    requires h in holding' <==> At(main', scan', buffers', h).ptr != 0
    requires h in holding' ==> holding'[h] == At(main', scan', buffers', h).ptr
    requires h in holding' && holding'[h] in owned' ==> At(main', scan', buffers', h).size <= owned'[holding'[h]]
    ensures Lists(holding', main', scan', buffers', owned')
  {
  }

  /** Two holders' regions never overlap. */
  lemma HoldersApart(log: Log, holding: map<Holder, nat>, h: Holder, k: Holder)
    requires Safe(log) && HoldingOk(holding, Owned(log))
    requires h in holding && k in holding && h != k
    ensures Clear(holding[h], Owned(log)[holding[h]], holding[k], Owned(log)[holding[k]])
  {
    RegionsStayApart(log);
  }
}

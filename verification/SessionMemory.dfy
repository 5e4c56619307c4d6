/** How the device memory of one session is laid out: what the driver allocated, and which of it is
    the arena. `outside` are the driver allocations besides the arena. On plain values. */
module SessionMemory {
  import opened MachineWord
  import opened OrderedMap
  import opened Tiling
  import opened DeviceLog

  /** `p` is the address of a live arena block. */
  ghost predicate Placed(base: nat, live: Blocks, p: nat) {
    base <= p && p - base in live
  }

  lemma LiveIsPlaced(base: nat, live: Blocks)
    ensures forall o | o in live :: Placed(base, live, base + o)
  {
  }

  /** Every owned region is a live arena block or a driver allocation of its own. */
  ghost predicate OwnedIs(owned: Regions, base: nat, live: Blocks, outside: Regions) {
    && (forall p | p in outside :: p in owned && owned[p] == outside[p])
    && (forall p: nat | Placed(base, live, p) :: p in owned && owned[p] == live[p - base])
    && (forall p | p in owned :: p in outside || Placed(base, live, p))
  }

  lemma AddBlock(owned: Regions, base: nat, live: Blocks, outside: Regions, o: nat, n: nat)
    requires OwnedIs(owned, base, live, outside) && o !in live && base + o !in outside
    ensures OwnedIs(owned[base + o := n], base, live[o := n], outside)
  {
    forall p: nat | p != base + o ensures Placed(base, live[o := n], p) <==> Placed(base, live, p) {}
  }

  lemma DropBlock(owned: Regions, base: nat, live: Blocks, outside: Regions, o: nat)
    requires OwnedIs(owned, base, live, outside) && o in live && base + o !in outside
    ensures base + o in owned && OwnedIs(owned - {base + o}, base, live - {o}, outside)
  {
    assert Placed(base, live, base + o);
    forall p: nat | p != base + o ensures Placed(base, live - {o}, p) <==> Placed(base, live, p) {}
  }

  lemma AddDirect(owned: Regions, base: nat, live: Blocks, outside: Regions, p: nat, n: nat)
    requires OwnedIs(owned, base, live, outside) && p !in owned
    ensures OwnedIs(owned[p := n], base, live, outside[p := n])
  {
  }

  lemma DropDirect(owned: Regions, base: nat, live: Blocks, outside: Regions, p: nat)
    requires OwnedIs(owned, base, live, outside) && p in outside && !Placed(base, live, p)
    ensures OwnedIs(owned - {p}, base, live, outside - {p})
  {
  }

  /** The arena, when there is one (`base != 0`), is one more allocation. */
  ghost predicate Backed(allocs: Regions, owned: Regions, base: nat, bytes: nat, live: Blocks, outside: Regions) {
    && OwnedIs(owned, base, live, outside)
    && if base == 0 then live == map[] && allocs == outside else base !in outside && allocs == outside[base := bytes]
  }

  ghost predicate MemoryOk(log: Log, allocs: Regions, base: nat, bytes: nat, live: Blocks, outside: Regions) {
    && Safe(log) && Allocated(log) == allocs
    && Within(live, bytes) && Disjoint(live)
    && Backed(allocs, Owned(log), base, bytes, live, outside)
  }

  /** Other driver allocations never lie in the arena. */
  lemma DirectOutsideArena(log: Log, allocs: Regions, base: nat, bytes: nat, live: Blocks, outside: Regions)
    requires MemoryOk(log, allocs, base, bytes, live, outside) && base != 0
    ensures forall p | p in outside :: outside[p] > 0 && (p + outside[p] <= base || base + bytes <= p)
    ensures forall p | p in outside :: !Placed(base, live, p)
  {
    RegionsStayApart(log);
    forall p | p in outside ensures outside[p] > 0 && (p + outside[p] <= base || base + bytes <= p) {
      assert p in allocs && allocs[p] == outside[p] && base in allocs;
    }
    forall p, o | p in outside && o in live ensures p != base + o {
      assert o + live[o] <= bytes;
    }
  }

  lemma OwnedLiesInAllocations(log: Log, allocs: Regions, base: nat, bytes: nat, live: Blocks, outside: Regions)
    requires MemoryOk(log, allocs, base, bytes, live, outside)
    ensures forall q | q in Owned(log) :: Inside(q, Owned(log)[q], allocs)
  {
    var owned: Regions := Owned(log);
    forall q | q in owned ensures Inside(q, owned[q], allocs) {
      if q in outside {
        assert q in allocs && allocs[q] == owned[q];
      } else {
        assert base in allocs && allocs[base] == bytes;
      }
    }
  }

  /** A window the arena found clear is apart from everything owned. */
  lemma WindowIsClearOfOwned(log: Log, allocs: Regions, base: nat, bytes: nat, live: Blocks, outside: Regions, o: nat, n: nat)
    requires MemoryOk(log, allocs, base, bytes, live, outside) && base != 0
    requires n > 0 && ClearWindow(bytes, live, o, n)
    ensures o !in live && base + o !in outside
    ensures SafeEvent(log, Grant(base + o, n))
  {
    hide Disjoint;
    DirectOutsideArena(log, allocs, base, bytes, live, outside);
    RegionsStayApart(log);
    var owned: Regions := Owned(log);
    forall q | q in owned ensures Clear(base + o, n, q, owned[q]) {
      if q !in outside { assert q - base in live; }
    }
    ClearOfOwnersIsIdle(log, base + o, n);
    assert base in allocs && Inside(base + o, n, allocs);
  }

  lemma ArenaGrant(log: Log, allocs: Regions, base: nat, bytes: nat, live: Blocks, outside: Regions, o: nat, n: nat)
    requires MemoryOk(log, allocs, base, bytes, live, outside) && base != 0
    requires n > 0 && ClearWindow(bytes, live, o, n)
    ensures base + o !in Owned(log)
    ensures MemoryOk(Then(log, Grant(base + o, n)), allocs, base, bytes, live[o := n], outside)
  {
    hide Inside, OwnedIs;
    WindowIsClearOfOwned(log, allocs, base, bytes, live, outside, o, n);
    assert base + o !in Owned(log) by { RegionsStayApart(log); }
    AddBlock(Owned(log), base, live, outside, o, n);
  }

  lemma ArenaReclaim(log: Log, allocs: Regions, base: nat, bytes: nat, live: Blocks, outside: Regions, o: nat)
    requires MemoryOk(log, allocs, base, bytes, live, outside) && base != 0
    requires o in live && InFlight(log) == {}
    ensures base + o in Owned(log)
    ensures MemoryOk(Then(log, Reclaim(base + o)), allocs, base, bytes, live - {o}, outside)
  {
    hide Inside, OwnedIs;
    DirectOutsideArena(log, allocs, base, bytes, live, outside);
    LiveIsPlaced(base, live);
    DropBlock(Owned(log), base, live, outside, o);
  }

  lemma ArenaBlockOwned(log: Log, allocs: Regions, base: nat, bytes: nat, live: Blocks, outside: Regions, p: nat)
    requires MemoryOk(log, allocs, base, bytes, live, outside) && base != 0
    requires base <= p < base + bytes
    ensures p in Owned(log) <==> p - base in live
  {
    DirectOutsideArena(log, allocs, base, bytes, live, outside);
    LiveIsPlaced(base, live);
  }

  /** A fresh driver allocation that is handed to an owner straight away. */
  lemma DirectGrantIsSafe(log: Log, p: nat, n: nat)
    requires Safe(log) && SafeEvent(log, Malloc(p, n))
    requires forall q | q in Owned(log) :: Inside(q, Owned(log)[q], Allocated(log))
    ensures SafeEvent(Then(log, Malloc(p, n)), Grant(p, n))
    ensures p !in Owned(log) && p !in Allocated(log)
  {
    var log1 := Then(log, Malloc(p, n));
    RegionsStayApart(log);
    var allocs: Regions := Allocated(log);
    assert p !in allocs;
    forall q | q in Owned(log) ensures Clear(p, n, q, Owned(log)[q]) {
      var a :| a in allocs && a <= q && q + Owned(log)[q] <= a + allocs[a];
      assert Clear(p, n, a, allocs[a]);
    }
    assert p in Allocated(log1) && Inside(p, n, Allocated(log1));
    ClearOfOwnersIsIdle(log1, p, n);
  }

  lemma CommuteUpdates(m: Regions, a: nat, x: nat, b: nat, y: nat)
    requires a != b
    ensures m[a := x][b := y] == m[b := y][a := x]
  {
  }

  lemma DirectGrant(log: Log, allocs: Regions, base: nat, bytes: nat, live: Blocks, outside: Regions, p: nat, n: nat)
    requires MemoryOk(log, allocs, base, bytes, live, outside)
    requires p > 0 && n > 0 && ClearOfAll(p, n, allocs)
    ensures p !in Owned(log) && p !in outside
    ensures Owned(Then(Then(log, Malloc(p, n)), Grant(p, n))) == Owned(log)[p := n]
    ensures MemoryOk(Then(Then(log, Malloc(p, n)), Grant(p, n)), allocs[p := n], base, bytes, live,
                     outside[p := n])
  {
    hide Within, Disjoint, Inside, OwnedIs;
    OwnedLiesInAllocations(log, allocs, base, bytes, live, outside);
    DirectGrantIsSafe(log, p, n);
    var log1 := Then(log, Malloc(p, n));
    var log2 := Then(log1, Grant(p, n));
    assert Safe(log1) && Safe(log2);
    assert Allocated(log1) == allocs[p := n] && Allocated(log2) == Allocated(log1);
    assert Owned(log1) == Owned(log) && Owned(log2) == Owned(log)[p := n];
    hide SafeEvent;
    AddDirect(Owned(log), base, live, outside, p, n);
    if base != 0 {
      assert p !in outside && p != base;
      CommuteUpdates(outside, base, bytes, p, n);
    }
  }

  lemma NotPlaced(base: nat, bytes: nat, live: Blocks, p: nat)
    requires Within(live, bytes) && (base == 0 ==> live == map[])
    requires base != 0 ==> p < base || base + bytes <= p
    ensures !Placed(base, live, p)
  {
  }

  lemma OwnedOutside(owned: Regions, base: nat, live: Blocks, outside: Regions, p: nat)
    requires OwnedIs(owned, base, live, outside) && p in owned && !Placed(base, live, p)
    ensures p in outside && outside[p] == owned[p]
  {
  }

  lemma FreeIsSafe(log: Log, p: nat)
    requires Safe(log) && p in Owned(log) && p in Allocated(log) && Allocated(log)[p] == Owned(log)[p]
    requires Idle(log, p, Owned(log)[p])
    ensures Safe(Then(Then(log, Reclaim(p)), Free(p)))
    ensures Allocated(Then(Then(log, Reclaim(p)), Free(p))) == Allocated(log) - {p}
    ensures Owned(Then(Then(log, Reclaim(p)), Free(p))) == Owned(log) - {p}
  {
    RegionsStayApart(log);
    var log1 := Then(log, Reclaim(p));
    assert Allocated(log1) == Allocated(log) && Owned(log1) == Owned(log) - {p} && InFlight(log1) == InFlight(log);
    assert SafeEvent(log, Reclaim(p)) && SafeEvent(log1, Free(p));
    assert Safe(log1);
  }

  /** An owned region outside the arena is one driver allocation. */
  lemma DirectFree(log: Log, allocs: Regions, base: nat, bytes: nat, live: Blocks, outside: Regions, p: nat)
    requires MemoryOk(log, allocs, base, bytes, live, outside)
    requires p in Owned(log) && Idle(log, p, Owned(log)[p])
    requires base != 0 ==> p < base || base + bytes <= p
    ensures p in outside && p in allocs && outside[p] == allocs[p]
    ensures MemoryOk(Then(Then(log, Reclaim(p)), Free(p)), allocs - {p}, base, bytes, live,
                     outside - {p})
  {
    NotPlaced(base, bytes, live, p);
    var owned: Regions := Owned(log);
    OwnedOutside(owned, base, live, outside, p);
    assert p in allocs && allocs[p] == owned[p];
    hide Within, Disjoint, Safe, SafeEvent, Inside, Idle, Allocated, Owned;
    FreeIsSafe(log, p);
    if base != 0 { assert outside[base := bytes] - {p} == (outside - {p})[base := bytes]; }
    hide OwnedIs;
    DropDirect(owned, base, live, outside, p);
  }

  /** A live block is owned, and no driver allocation of its own. */
  lemma BlockIsOwned(log: Log, allocs: Regions, base: nat, bytes: nat, live: Blocks, outside: Regions, o: nat)
    requires MemoryOk(log, allocs, base, bytes, live, outside) && base != 0 && o in live
    ensures base + o in Owned(log) && base + o !in outside
  {
    DirectOutsideArena(log, allocs, base, bytes, live, outside);
    LiveIsPlaced(base, live);
  }

  /** Once every block was handed back, the arena itself can be freed. */
  lemma ArenaFree(log: Log, allocs: Regions, base: nat, bytes: nat, live: Blocks, outside: Regions)
    requires MemoryOk(log, allocs, base, bytes, live, outside) && base != 0
    requires live == map[] && InFlight(log) == {}
    ensures outside == allocs - {base} && MemoryOk(Then(log, Free(base)), outside, 0, 0, map[], outside)
  {
    DirectOutsideArena(log, allocs, base, bytes, live, outside);
    assert outside[base := bytes] - {base} == outside;
  }

  /** The arena is one more driver allocation, in which nobody owns anything yet. */
  lemma NewArena(log: Log, allocs: Regions, bytes: nat, outside: Regions, p: nat, n: nat)
    requires MemoryOk(log, allocs, 0, bytes, map[], outside)
    requires p > 0 && n > 0 && ClearOfAll(p, n, allocs)
    ensures MemoryOk(Then(log, Malloc(p, n)), allocs[p := n], p, n, map[], outside)
  {
    RegionsStayApart(log);
  }

  /** Enqueueing work on owned memory and waiting for it leave the layout alone. */
  lemma UseKeepsMemory(log: Log, allocs: Regions, base: nat, bytes: nat, live: Blocks, outside: Regions, p: nat, offset: nat, n: nat)
    requires MemoryOk(log, allocs, base, bytes, live, outside)
    requires p in Owned(log) && n > 0 && offset + n <= Owned(log)[p]
    ensures MemoryOk(Then(log, Use(p + offset, n)), allocs, base, bytes, live, outside)
  {
    hide Within, Disjoint, Backed;
    assert Inside(p + offset, n, Owned(log));
  }

  lemma GrantedMemoryIsIdle(log: Log, allocs: Regions, base: nat, bytes: nat, live: Blocks, outside: Regions)
    requires MemoryOk(log, allocs, base, bytes, live, outside) && log.Then? && log.e.Grant?
    ensures Idle(log, log.e.p, log.e.n)
  {
    GrantedIsIdle(log);
  }

  lemma SyncKeepsMemory(log: Log, allocs: Regions, base: nat, bytes: nat, live: Blocks, outside: Regions)
    requires MemoryOk(log, allocs, base, bytes, live, outside)
    ensures MemoryOk(Then(log, Sync), allocs, base, bytes, live, outside)
  {
  }

  predicate CanPlace(p: nat, n: nat, allocs: Regions) {
    forall q | q in allocs :: p + n <= q || q + allocs[q] <= p
  }

  /** An address after the end of every allocation. */
  lemma {:induction false} FreshAddress(allocs: Regions) returns (p: nat)
    ensures p > 0 && forall q | q in allocs :: q + allocs[q] <= p
    decreases |allocs|
  {
    if allocs == map[] {
      p := 1;
    } else {
      var q :| q in allocs;
      SmallerMap(allocs, q);
      var p' := FreshAddress(allocs - {q});
      p := if p' < q + allocs[q] then q + allocs[q] else p';
      forall r | r in allocs ensures r + allocs[r] <= p {
        if r != q { assert r in allocs - {q}; }
      }
    }
  }

  lemma {:induction false} FreshExists(allocs: Regions, n: nat)
    ensures exists p: nat :: p > 0 && CanPlace(p, n, allocs)
  {
    var p := FreshAddress(allocs);
    assert CanPlace(p, n, allocs);
  }
}
